/** What the SD-card pipeline does to the flash and the card, stated as
    functions of the state before it: SD_upload (delete `old`, restore
    `backup.bin` or install `fw.bin`) and read_chip_to_sd (dump the flash into
    a new `backup.bin`). The board's methods are proved to change their state
    exactly as these functions say. */
module Update {
  import opened Geometry
  import opened Flash
  import opened Storage

  const OldName: string := "old"
  const BackupName: string := "backup.bin"
  const FirmwareName: string := "fw.bin"
  /** The spelling the fw.bin branch renames; FatFs takes it for fw.bin. */
  const RenamedFirmwareName: string := "FW.bin"

  /** What the pipeline acts on: the application flash, the log of hardware
      erase commands and the card's files. */
  datatype Store = Store(mem: seq<bv8>, eraseLog: seq<nat>, files: map<string, seq<bv8>>)

  /** Whether the f_read call with the planted fault of `key` is reached
      before the loop ends on a short block: calls 0 .. |data|/512 are made. */
  predicate FaultReached(data: seq<bv8>, faults: map<string, nat>, key: string) {
    key in faults && faults[key] <= |data| / BlockSize
  }

  /** The index of the f_read call that fails on the file `key`, or -1 when
      none does. */
  function FaultCall(faults: map<string, nat>, key: string): int {
    if key in faults then faults[key] else -1
  }

  /** The number of bytes the copy loop programs from `data` when call
      `fault` fails: the whole blocks before it if it is reached, else all. */
  function CopiedBytes(data: seq<bv8>, fault: int): (c: nat)
    ensures c <= |data|
  {
    if 0 <= fault <= |data| / BlockSize then BlockSize * fault else |data|
  }

  /** The number of bytes the copy loop programs from a file: all of them, or
      the whole blocks read before the failing call. */
  function CopyLength(data: seq<bv8>, faults: map<string, nat>, key: string): (c: nat)
    ensures c <= |data|
    ensures c < |data| ==> FaultReached(data, faults, key)
  {
    CopiedBytes(data, FaultCall(faults, key))
  }

  /** What one turn of the copy loop learns from f_read call n, made after
      the blocks before it were read without fault and without reaching the
      end: the call fails, and the blocks read so far are what is copied; or
      it returns a whole block and the end is not reached; or it returns a
      short block, and with it every byte that is copied has been read. */
  lemma CopyStep(data: seq<bv8>, fault: int, n: nat)
    requires BlockSize * n <= |data|
    requires fault < 0 || fault >= n
    ensures fault == n ==> Blocks(data, n) == data[..CopiedBytes(data, fault)]
    ensures fault != n ==>
      if |Block(data, n)| == BlockSize then BlockSize * (n + 1) <= |data|
      else Blocks(data, n + 1) == data[..CopiedBytes(data, fault)]
  {
    var q := |data| / BlockSize;
    DivBounds(|data|);
    assert n <= q;
    if fault == n {
      BlocksConcat(data, n);
    } else if |Block(data, n)| == BlockSize {
      assert BlockSize * (n + 1) == BlockSize * n + BlockSize;
    } else {
      assert q == n;
      BlocksOfWholeFile(data, n);
      assert data[..|data|] == data;
    }
  }

  /** Euclidean division by the block size. */
  lemma DivBounds(len: nat)
    ensures BlockSize * (len / BlockSize) <= len < BlockSize * (len / BlockSize) + BlockSize
  {
  }

  /** The bytes copied are exactly the blocks the successful reads return, in
      order: every block up to the failing call, or every block of the file. */
  lemma CopiedAreReadBlocks(data: seq<bv8>, faults: map<string, nat>, key: string)
    ensures FaultReached(data, faults, key) ==>
      data[..CopyLength(data, faults, key)] == Blocks(data, faults[key])
    ensures !FaultReached(data, faults, key) ==>
      data[..CopyLength(data, faults, key)] == Blocks(data, |data| / BlockSize + 1)
  {
    if FaultReached(data, faults, key) {
      BlocksBeforeFault(data, faults[key]);
    } else {
      WholeFileBlocks(data);
    }
  }

  /** Reading until the short block yields the whole file. */
  lemma WholeFileBlocks(data: seq<bv8>)
    ensures data[..|data|] == Blocks(data, |data| / BlockSize + 1)
  {
    var last := |data| / BlockSize;
    DivBounds(|data|);
    BlocksOfWholeFile(data, last);
    assert data[..|data|] == data;
  }

  /** The blocks read before call n, when that call is reached. */
  lemma BlocksBeforeFault(data: seq<bv8>, n: nat)
    requires n <= |data| / BlockSize
    ensures data[..BlockSize * n] == Blocks(data, n)
  {
    var last := |data| / BlockSize;
    assert BlockSize * n <= BlockSize * last <= |data|;
    BlocksConcat(data, n);
  }

  /** A sequence is its prefix and suffix at any cut. */
  lemma SplitAt(s: seq<bv8>, i: nat)
    requires i <= |s|
    ensures s[..i] + s[i..] == s
  {
  }

  /** The blocks read until the short one, block `last`, are the whole
      file. */
  lemma BlocksOfWholeFile(data: seq<bv8>, last: nat)
    requires BlockSize * last <= |data| < BlockSize * last + BlockSize
    ensures data == Blocks(data, last + 1)
  {
    var lo := BlockSize * last;
    BlocksConcat(data, last);
    assert Block(data, last) == data[lo..] by {
      assert !(lo + BlockSize < |data|);
    }
    assert Blocks(data, last + 1) == data[..lo] + data[lo..];
    SplitAt(data, lo);
  }

  /** The store after a branch's erase loop and copy: the whole region erased
      (one hardware erase per sector that was not blank), then `bytes`
      programmed from byte offset `start` on. */
  function Flashed(s: Store, t: seq<Sector>, start: nat, bytes: seq<bv8>): (r: Store)
    requires WellFormedTable(t) && |s.mem| == RegionSize(t)
    ensures |r.mem| == |s.mem| && r.files == s.files
  {
    Store(ProgramRun(Erased(|s.mem|), start, bytes), s.eraseLog + EraseLogUpTo(s.mem, t, |t|), s.files)
  }

  /** The firmware branch of SD_upload, programming from byte offset
      `start`: if fw.bin opens, flash it and rename it to `old`. */
  function FirmwareStage(s: Store, t: seq<Sector>, mounted: bool, faults: map<string, nat>,
                         start: nat): (r: Store)
    requires WellFormedTable(t) && |s.mem| == RegionSize(t)
    ensures |r.mem| == |s.mem|
  {
    if mounted && FirmwareKey in s.files then
      var data := s.files[FirmwareKey];
      var f := Flashed(s, t, start, data[..CopyLength(data, faults, FirmwareKey)]);
      f.(files := Renamed(f.files, RenamedFirmwareName, OldName))
    else s
  }

  /** How SD_upload ends: the new store, and whether the jump inside the
      backup branch started the application (and so never came back). */
  datatype Outcome = Outcome(store: Store, launched: bool)

  /** The store after `old` is deleted, if it opens. */
  function WithoutOld(s: Store, mounted: bool): Store {
    if mounted && OldKey in s.files then s.(files := Unlinked(s.files, OldName)) else s
  }

  /** SD_upload. When the backup branch's jump returns, the firmware branch
      programs from where the backup copy stopped if `rewind` is false, as
      the code does, or from the load address if it is true. */
  function UploadFrom(s: Store, t: seq<Sector>, mounted: bool, faults: map<string, nat>,
                      appStarts: seq<bv8> -> bool, rewind: bool): (o: Outcome)
    requires WellFormedTable(t) && |s.mem| == RegionSize(t)
    ensures |o.store.mem| == |s.mem|
  {
    var s1 := WithoutOld(s, mounted);
    if mounted && BackupKey in s1.files then
      var data := s1.files[BackupKey];
      var copied := CopyLength(data, faults, BackupKey);
      var s2 := Flashed(s1, t, 0, data[..copied]);
      var s3 := s2.(files := Unlinked(s2.files, BackupName));
      if appStarts(s3.mem) then Outcome(s3, true)
      else Outcome(FirmwareStage(s3, t, mounted, faults, if rewind then 0 else copied), false)
    else Outcome(FirmwareStage(s1, t, mounted, faults, 0), false)
  }

  /** SD_upload as written. */
  function Upload(s: Store, t: seq<Sector>, mounted: bool, faults: map<string, nat>,
                  appStarts: seq<bv8> -> bool): (o: Outcome)
    requires WellFormedTable(t) && |s.mem| == RegionSize(t)
    ensures |o.store.mem| == |s.mem|
  {
    UploadFrom(s, t, mounted, faults, appStarts, false)
  }

  /** SD_upload with program_addr reset for the firmware branch. */
  function UploadIntended(s: Store, t: seq<Sector>, mounted: bool, faults: map<string, nat>,
                          appStarts: seq<bv8> -> bool): (o: Outcome)
    requires WellFormedTable(t) && |s.mem| == RegionSize(t)
    ensures |o.store.mem| == |s.mem|
  {
    UploadFrom(s, t, mounted, faults, appStarts, true)
  }

  /** SD_upload opens an image and so unlocks, erases and relocks the flash. */
  predicate ImageOnCard(mounted: bool, files: map<string, seq<bv8>>) {
    mounted && (BackupKey in files || FirmwareKey in files)
  }

  /** f_size of the global handle after SD_upload: that of backup.bin when
      it opened, else what it was. */
  function HandleSizeAfterUpload(mounted: bool, files: map<string, seq<bv8>>, size: nat): nat {
    if mounted && BackupKey in files then |files[BackupKey]| else size
  }

  /** A card that cannot be read, or has neither image on it, leaves the
      flash alone; `old` is deleted in any case. */
  lemma NoImageNoFlashing(s: Store, t: seq<Sector>, mounted: bool, faults: map<string, nat>,
                          appStarts: seq<bv8> -> bool, rewind: bool)
    requires WellFormedTable(t) && |s.mem| == RegionSize(t)
    requires !(mounted && BackupKey in s.files) && !(mounted && FirmwareKey in s.files)
    ensures var o := UploadFrom(s, t, mounted, faults, appStarts, rewind);
      !o.launched && o.store.mem == s.mem && o.store.eraseLog == s.eraseLog &&
      o.store.files == if mounted then Unlinked(s.files, OldName) else s.files
  {
    PipelineNames();
    if OldKey !in s.files {
      assert Unlinked(s.files, OldName) == s.files;
    }
  }

  /** backup.bin takes priority: when it opens, the first erase pass and the
      first image come from it, it is deleted even if a read failed, and if
      the application then starts, fw.bin is left as it was. */
  lemma BackupTakesPriority(s: Store, t: seq<Sector>, mounted: bool, faults: map<string, nat>,
                            appStarts: seq<bv8> -> bool, rewind: bool)
    requires WellFormedTable(t) && |s.mem| == RegionSize(t)
    requires mounted && BackupKey in s.files
    ensures var o := UploadFrom(s, t, mounted, faults, appStarts, rewind);
      var data := s.files[BackupKey];
      var image := ProgramRun(Erased(|s.mem|), 0, data[..CopyLength(data, faults, BackupKey)]);
      o.launched <==> appStarts(image)
    ensures var o := UploadFrom(s, t, mounted, faults, appStarts, rewind);
      var log := s.eraseLog + EraseLogUpTo(s.mem, t, |t|);
      BackupKey !in o.store.files && o.store.eraseLog[..|log|] == log
    ensures var o := UploadFrom(s, t, mounted, faults, appStarts, rewind);
      var data := s.files[BackupKey];
      o.launched ==>
        o.store.mem == ProgramRun(Erased(|s.mem|), 0, data[..CopyLength(data, faults, BackupKey)]) &&
        (FirmwareKey in o.store.files <==> FirmwareKey in s.files) &&
        (FirmwareKey in s.files ==> o.store.files[FirmwareKey] == s.files[FirmwareKey])
  {
    PipelineNames();
    var s1 := WithoutOld(s, mounted);
    assert BackupKey in s1.files && s1.files[BackupKey] == s.files[BackupKey];
    var data := s.files[BackupKey];
    var s2 := Flashed(s1, t, 0, data[..CopyLength(data, faults, BackupKey)]);
    var log := s.eraseLog + EraseLogUpTo(s.mem, t, |t|);
    assert s2.eraseLog == log;
    var s3 := s2.(files := Unlinked(s2.files, BackupName));
    if !appStarts(s3.mem) {
      var start := if rewind then 0 else CopyLength(data, faults, BackupKey);
      var r := FirmwareStage(s3, t, mounted, faults, start);
      assert r.eraseLog[..|log|] == log;
      assert BackupKey !in r.files;
    }
  }

  /** With no backup.bin, an fw.bin that opens is flashed from the load
      address and becomes `old`, even when a read failed part way. */
  lemma FirmwareBecomesOld(s: Store, t: seq<Sector>, mounted: bool, faults: map<string, nat>,
                           appStarts: seq<bv8> -> bool, rewind: bool)
    requires WellFormedTable(t) && |s.mem| == RegionSize(t)
    requires mounted && BackupKey !in s.files && FirmwareKey in s.files
    ensures var o := UploadFrom(s, t, mounted, faults, appStarts, rewind);
      var data := s.files[FirmwareKey];
      !o.launched &&
      o.store.mem == ProgramRun(Erased(|s.mem|), 0, data[..CopyLength(data, faults, FirmwareKey)]) &&
      o.store.eraseLog == s.eraseLog + EraseLogUpTo(s.mem, t, |t|) &&
      FirmwareKey !in o.store.files && OldKey in o.store.files && o.store.files[OldKey] == data &&
      forall key | key != FirmwareKey && key != OldKey ::
        (key in o.store.files <==> key in s.files) &&
        (key in o.store.files ==> o.store.files[key] == s.files[key])
  {
    PipelineNames();
    var s1 := WithoutOld(s, mounted);
    assert OldKey !in s1.files && FirmwareKey in s1.files;
  }

  /** As written, when the restored backup does not start, the firmware
      branch erases everything and programs fw.bin from the offset where the
      backup copy ended: the load address is left erased and byte 0 of
      fw.bin lands `copied` bytes further on. */
  lemma ProgramAddressCarried(s: Store, t: seq<Sector>, mounted: bool, faults: map<string, nat>,
                              appStarts: seq<bv8> -> bool)
    requires WellFormedTable(t) && |s.mem| == RegionSize(t)
    requires mounted && BackupKey in s.files && FirmwareKey in s.files
    requires var data := s.files[BackupKey];
      !appStarts(ProgramRun(Erased(|s.mem|), 0, data[..CopyLength(data, faults, BackupKey)]))
    ensures var data := s.files[BackupKey];
      var copied := CopyLength(data, faults, BackupKey);
      var fw := s.files[FirmwareKey];
      var o := Upload(s, t, mounted, faults, appStarts);
      (forall k | 0 <= k < copied && k < |s.mem| :: o.store.mem[k] == ErasedByte) &&
      (copied < |s.mem| && 0 < CopyLength(fw, faults, FirmwareKey) ==> o.store.mem[copied] == fw[0])
  {
    PipelineNames();
    var data := s.files[BackupKey];
    var copied := CopyLength(data, faults, BackupKey);
    var fw := s.files[FirmwareKey];
    var s1 := WithoutOld(s, mounted);
    var s2 := Flashed(s1, t, 0, data[..copied]);
    var s3 := s2.(files := Unlinked(s2.files, BackupName));
    assert FirmwareKey in s3.files && s3.files[FirmwareKey] == fw;
    var bytes := fw[..CopyLength(fw, faults, FirmwareKey)];
    ProgramRunOnErased(Erased(|s.mem|), copied, bytes);
  }

  /** The smallest case: a 512-byte backup.bin that does not start puts
      fw.bin's first byte at 0x08008200, not at the load address. */
  lemma ProgramAddressCarriedExample(s: Store, t: seq<Sector>, faults: map<string, nat>,
                                     appStarts: seq<bv8> -> bool)
    requires WellFormedTable(t) && |s.mem| == RegionSize(t) && 0 < |t|
    requires BackupKey in s.files && |s.files[BackupKey]| == BlockSize
    requires FirmwareKey in s.files && |s.files[FirmwareKey]| > 0
    requires faults == map[]
    requires !appStarts(ProgramRun(Erased(|s.mem|), 0, s.files[BackupKey]))
    ensures var o := Upload(s, t, true, faults, appStarts);
      o.store.mem[0] == ErasedByte && o.store.mem[BlockSize] == s.files[FirmwareKey][0]
  {
    SectorInRegion(t, 0);
    var data := s.files[BackupKey];
    assert data[..CopyLength(data, faults, BackupKey)] == data;
    ProgramAddressCarried(s, t, true, faults, appStarts);
  }

  /** With program_addr reset, the firmware branch installs fw.bin at the
      load address whatever the backup branch did before it: the flash ends
      up exactly as if no backup.bin had been there. */
  lemma IntendedFirmwareAtLoadAddress(s: Store, t: seq<Sector>, mounted: bool,
                                      faults: map<string, nat>, appStarts: seq<bv8> -> bool)
    requires WellFormedTable(t) && |s.mem| == RegionSize(t)
    requires mounted && BackupKey in s.files && FirmwareKey in s.files
    requires var data := s.files[BackupKey];
      !appStarts(ProgramRun(Erased(|s.mem|), 0, data[..CopyLength(data, faults, BackupKey)]))
    ensures var fw := s.files[FirmwareKey];
      var o := UploadIntended(s, t, mounted, faults, appStarts);
      !o.launched &&
      o.store.mem == ProgramRun(Erased(|s.mem|), 0, fw[..CopyLength(fw, faults, FirmwareKey)]) &&
      forall k | 0 <= k < CopyLength(fw, faults, FirmwareKey) && k < |s.mem| :: o.store.mem[k] == fw[k]
  {
    PipelineNames();
    var data := s.files[BackupKey];
    var copied := CopyLength(data, faults, BackupKey);
    var fw := s.files[FirmwareKey];
    var s1 := WithoutOld(s, mounted);
    var s2 := Flashed(s1, t, 0, data[..copied]);
    var s3 := s2.(files := Unlinked(s2.files, BackupName));
    assert FirmwareKey in s3.files && s3.files[FirmwareKey] == fw;
    assert |s3.mem| == |s.mem|;
    var bytes := fw[..CopyLength(fw, faults, FirmwareKey)];
    ProgramRunOnErased(Erased(|s.mem|), 0, bytes);
  }

  /** flash_func_read_sector's blank test: the words at offsets 0, 4 and 16
      of the sector are all 0xFFFFFFFF. */
  predicate LooksBlank(m: seq<bv8>, t: seq<Sector>, sector: nat)
    requires WellFormedTable(t) && sector < |t| && |m| == RegionSize(t)
  {
    SectorInRegion(t, sector);
    var base := SectorBase(t, sector);
    WordAt(m, base) == ErasedWord && WordAt(m, base + 4) == ErasedWord &&
    WordAt(m, base + 16) == ErasedWord
  }

  /** The first sector at or after `from` that looks blank, or |t|. */
  function FirstBlankLooking(m: seq<bv8>, t: seq<Sector>, from: nat): (k: nat)
    requires WellFormedTable(t) && from <= |t| && |m| == RegionSize(t)
    ensures from <= k <= |t|
    ensures k < |t| ==> LooksBlank(m, t, k)
    ensures forall j | from <= j < k :: !LooksBlank(m, t, j)
    decreases |t| - from
  {
    if from == |t| then from
    else if LooksBlank(m, t, from) then from
    else FirstBlankLooking(m, t, from + 1)
  }

  /** The sectors read_chip_to_sd dumps: those before the first that looks
      blank. A blank flag left set by an earlier call stops the loop after
      sector 0 whatever that sector holds. */
  function DumpedSectors(m: seq<bv8>, t: seq<Sector>, flagSet: bool): (k: nat)
    requires WellFormedTable(t) && |m| == RegionSize(t)
    ensures k <= |t|
  {
    if !flagSet then FirstBlankLooking(m, t, 0)
    else if |t| == 0 || LooksBlank(m, t, 0) then 0
    else 1
  }

  /** The bytes of sectors 0 .. k-1, in address order. */
  function Dump(m: seq<bv8>, t: seq<Sector>, k: nat): (d: seq<bv8>)
    requires WellFormedTable(t) && k <= |t| && |m| == RegionSize(t)
    ensures |d| == SectorBase(t, k)
  {
    SectorBaseMonotone(t, k, |t|);
    m[..SectorBase(t, k)]
  }

  /** Dumping one more sector appends that sector's bytes. */
  lemma DumpStep(m: seq<bv8>, t: seq<Sector>, k: nat)
    requires WellFormedTable(t) && k < |t| && |m| == RegionSize(t)
    ensures Dump(m, t, k + 1) == Dump(m, t, k) + SectorBytes(m, t, k)
  {
    SectorInRegion(t, k);
    SectorBaseMonotone(t, k + 1, |t|);
    assert m[..SectorBase(t, k + 1)] == m[..SectorBase(t, k)] + m[SectorBase(t, k)..SectorBase(t, k + 1)];
  }

  /** The file map after read_chip_to_sd. The new backup.bin holds the
      dumped sectors; it is deleted when the handle's size is 0. That size is
      the new file's when FA_CREATE_NEW succeeded, and otherwise whatever the
      global handle last held (`handleSize`). With `intended`, only a file
      this call created is deleted. */
  function DumpFilesFrom(files: map<string, seq<bv8>>, mounted: bool, m: seq<bv8>, t: seq<Sector>,
                         flagSet: bool, handleSize: nat, intended: bool): map<string, seq<bv8>>
    requires WellFormedTable(t) && |m| == RegionSize(t)
  {
    var created := mounted && BackupKey !in files;
    var dump := Dump(m, t, DumpedSectors(m, t, flagSet));
    var f1 := if created then files[BackupKey := dump] else files;
    var size := if created then |dump| else handleSize;
    var unlink := size == 0 && (created || !intended);
    if unlink && mounted then Unlinked(f1, BackupName) else f1
  }

  /** When FA_CREATE_NEW succeeds, the new file holds the dump and is
      deleted exactly when the dump is empty. */
  lemma DumpFilesCreated(files: map<string, seq<bv8>>, m: seq<bv8>, t: seq<Sector>,
                         flagSet: bool, handleSize: nat, intended: bool)
    requires WellFormedTable(t) && |m| == RegionSize(t) && BackupKey !in files
    ensures var dump := Dump(m, t, DumpedSectors(m, t, flagSet));
      DumpFilesFrom(files, true, m, t, flagSet, handleSize, intended) ==
        if |dump| == 0 then Unlinked(files[BackupKey := dump], BackupName) else files[BackupKey := dump]
  {
  }

  /** When FA_CREATE_NEW fails, no sector is read, and the existing file,
      if any, goes when the handle's size is 0 (and, with `intended`, never). */
  lemma DumpFilesNotCreated(files: map<string, seq<bv8>>, mounted: bool, m: seq<bv8>, t: seq<Sector>,
                            flagSet: bool, handleSize: nat, intended: bool)
    requires WellFormedTable(t) && |m| == RegionSize(t) && !(mounted && BackupKey !in files)
    ensures DumpFilesFrom(files, mounted, m, t, flagSet, handleSize, intended) ==
      if handleSize == 0 && !intended && mounted then Unlinked(files, BackupName) else files
  {
  }

  /** read_chip_to_sd as written. */
  function DumpFiles(files: map<string, seq<bv8>>, mounted: bool, m: seq<bv8>, t: seq<Sector>,
                     flagSet: bool, handleSize: nat): map<string, seq<bv8>>
    requires WellFormedTable(t) && |m| == RegionSize(t)
  {
    DumpFilesFrom(files, mounted, m, t, flagSet, handleSize, false)
  }

  /** read_chip_to_sd deleting only a file it created itself. */
  function DumpFilesIntended(files: map<string, seq<bv8>>, mounted: bool, m: seq<bv8>, t: seq<Sector>,
                             flagSet: bool, handleSize: nat): map<string, seq<bv8>>
    requires WellFormedTable(t) && |m| == RegionSize(t)
  {
    DumpFilesFrom(files, mounted, m, t, flagSet, handleSize, true)
  }

  /** A new backup.bin holds the flash from the load address up to the first
      sector that looks blank (see FirstBlankLooking), each dumped sector
      whole, and it is kept exactly when that is not empty. */
  lemma DumpIsFlashPrefix(files: map<string, seq<bv8>>, m: seq<bv8>, t: seq<Sector>, handleSize: nat)
    requires WellFormedTable(t) && |m| == RegionSize(t)
    requires BackupKey !in files
    ensures var r := DumpFiles(files, true, m, t, false, handleSize);
      var k := FirstBlankLooking(m, t, 0);
      (BackupKey in r <==> 0 < k) && (BackupKey in r ==> r[BackupKey] == Dump(m, t, k))
  {
    PipelineNames();
    var k := FirstBlankLooking(m, t, 0);
    var dump := Dump(m, t, k);
    if 0 < k {
      SectorInRegion(t, 0);
      SectorBaseMonotone(t, 1, k);
      assert |dump| > 0;
    }
    var f1 := files[BackupKey := dump];
    assert DumpFiles(files, true, m, t, false, handleSize) ==
      if |dump| == 0 then Unlinked(f1, BackupName) else f1;
  }

  /** read_chip_to_sd touches no file but backup.bin. */
  lemma DumpKeepsOtherFiles(files: map<string, seq<bv8>>, mounted: bool, m: seq<bv8>, t: seq<Sector>,
                            flagSet: bool, handleSize: nat)
    requires WellFormedTable(t) && |m| == RegionSize(t)
    ensures var r := DumpFiles(files, mounted, m, t, flagSet, handleSize);
      forall key | key != BackupKey :: (key in r <==> key in files) && (key in r ==> r[key] == files[key])
  {
    PipelineNames();
  }

  /** As written, an existing backup.bin is deleted when the global handle
      was never opened before (its size is still 0): FA_CREATE_NEW fails,
      f_size reads the stale 0, and the code takes the file for empty. */
  lemma ExistingBackupDeleted(files: map<string, seq<bv8>>, m: seq<bv8>, t: seq<Sector>, flagSet: bool)
    requires WellFormedTable(t) && |m| == RegionSize(t)
    requires BackupKey in files
    ensures BackupKey !in DumpFiles(files, true, m, t, flagSet, 0)
  {
    PipelineNames();
  }

  /** Deleting only a file the call created never loses an existing
      backup.bin, or any other file, and still removes an empty new one. */
  lemma IntendedKeepsExistingBackup(files: map<string, seq<bv8>>, mounted: bool, m: seq<bv8>,
                                    t: seq<Sector>, flagSet: bool, handleSize: nat)
    requires WellFormedTable(t) && |m| == RegionSize(t)
    ensures BackupKey in files ==> DumpFilesIntended(files, mounted, m, t, flagSet, handleSize) == files
    ensures forall key | key != BackupKey ::
      var r := DumpFilesIntended(files, mounted, m, t, flagSet, handleSize);
      (key in r <==> key in files) && (key in r ==> r[key] == files[key])
    ensures mounted && BackupKey !in files && DumpedSectors(m, t, flagSet) == 0 ==>
      BackupKey !in DumpFilesIntended(files, mounted, m, t, flagSet, handleSize)
  {
    PipelineNames();
  }
}
