/** The STM32F4 board: its retained RTC register, the board_info firmware
    ceiling, the flash and the SD card, and the parts of main that drive
    them: the boot decision, SD_upload, read_chip_to_sd and one turn of the
    loop around bootloader(). */
module Board {
  import opened Geometry
  import opened Flash
  import opened Storage
  import opened Identity
  import opened Sampling
  import opened Decision
  import opened Update

  /** Where main goes next: into the application (a jump that did not come
      back), or into bootloader() with a timeout. */
  datatype Exit = AppRunning | InBootloader(timeout: nat)

  class Board {
    const flash: FlashDevice
    const volume: Volume
    /** DBGMCU_IDCODE. */
    const idcode: bv32
    /** BOARD_FLASH_SIZE. */
    const flashSize: nat
    /** Built for FMUv2 or FMUv4, the targets that check the silicon. */
    const fmuTarget: bool
    /** BOOT_RTC_REG, which survives a reset. */
    var rtcSignature: bv32
    /** The global blankFlag: set once a dumped sector looks blank. */
    var blankFlag: bool
    /** f_size of the global backupfile handle. */
    var backupHandleSize: nat
    /** board_info.fw_size. */
    var fwSize: int

    ghost predicate Valid()
      reads this, flash
    {
      flash.Valid()
    }

    /** The board as it comes out of reset: globals zeroed, the retained
        register as it was left. */
    constructor (flash: FlashDevice, volume: Volume, idcode: bv32, flashSize: nat, fmuTarget: bool,
                 rtcSignature: bv32)
      requires flash.Valid()
      ensures Valid()
      ensures this.flash == flash && this.volume == volume && this.idcode == idcode
      ensures this.flashSize == flashSize && this.fmuTarget == fmuTarget
      ensures this.rtcSignature == rtcSignature
      ensures !blankFlag && backupHandleSize == 0 && fwSize == 0
    {
      this.flash := flash;
      this.volume := volume;
      this.idcode := idcode;
      this.flashSize := flashSize;
      this.fmuTarget := fmuTarget;
      this.rtcSignature := rtcSignature;
      blankFlag := false;
      backupHandleSize := 0;
      fwSize := 0;
    }

    /** board_get_rtc_signature. */
    method GetRtcSignature() returns (sig: bv32)
      ensures sig == rtcSignature
    {
      sig := rtcSignature;
    }

    /** board_set_rtc_signature. */
    method SetRtcSignature(sig: bv32)
      modifies this`rtcSignature
      ensures rtcSignature == sig
    {
      rtcSignature := sig;
    }

    /** Reading the register back returns what was written. */
    method RtcRoundTrip(sig: bv32) returns (read: bv32)
      modifies this`rtcSignature
      ensures read == sig && rtcSignature == sig
    {
      SetRtcSignature(sig);
      read := GetRtcSignature();
    }

    /** board_init, the part that fixes board_info.fw_size. */
    method BoardInit()
      modifies this`fwSize
      ensures fwSize == FirmwareSize(flashSize, fmuTarget, idcode)
    {
      fwSize := AppSizeMax(flashSize);
      var bad := CheckSilicon(fmuTarget, idcode);
      if bad != 0 && fwSize == 2 * 1024 * KiB - BootloaderReservation {
        fwSize := 1024 * KiB - BootloaderReservation;
      }
    }

    /** The do-while copy loop of SD_upload: read 512 bytes at a time,
        program them byte by byte from absolute address `start` on, and stop
        after a read error or a short block. Returns the next address. */
    method CopyFile(name: string, start: nat) returns (end: nat)
      requires Valid() && flash.unlocked && volume.Opens(name) && LoadAddress <= start
      modifies flash.mem
      ensures var data := volume.files[Canonical(name)];
        var c := CopyLength(data, volume.readFaults, Canonical(name));
        end == start + c &&
        flash.mem[..] == ProgramRun(old(flash.mem[..]), start - LoadAddress, data[..c])
    {
      ghost var key := Canonical(name);
      ghost var data := volume.files[key];
      ghost var m0 := flash.mem[..];
      ghost var offset := start - LoadAddress;
      ghost var fault := FaultCall(volume.readFaults, key);
      var programAddr := start;
      var block := 0;
      var more := true;
      while more
        invariant flash.Valid() && flash.unlocked
        invariant programAddr == start + |Blocks(data, block)|
        invariant flash.mem[..] == ProgramRun(m0, offset, Blocks(data, block))
        invariant more ==> BlockSize * block <= |data| && (fault < 0 || fault >= block)
        invariant !more ==> Blocks(data, block) == data[..CopiedBytes(data, fault)]
        decreases more, |data| - BlockSize * block
      {
        CopyStep(data, fault, block);
        var ok, len;
        ok, len, programAddr := CopyBlock(name, block, programAddr, m0, offset);
        if !ok {
          break;
        }
        more := len == BlockSize;
        block := block + 1;
      }
      assert CopyLength(data, volume.readFaults, key) == CopiedBytes(data, fault);
      assert flash.mem[..] == ProgramRun(m0, offset, data[..CopiedBytes(data, fault)]);
      end := programAddr;
    }

    /** One turn of the copy loop: f_read of block `index` into the
        512-byte buffer and, if it succeeds, programming the bytes read from
        absolute address `address` on. */
    method CopyBlock(name: string, index: nat, address: nat, ghost m0: seq<bv8>, ghost offset: nat)
      returns (ok: bool, len: nat, next: nat)
      requires Valid() && flash.unlocked && volume.Opens(name)
      requires var data := volume.files[Canonical(name)];
        address == LoadAddress + offset + |Blocks(data, index)| &&
        flash.mem[..] == ProgramRun(m0, offset, Blocks(data, index))
      modifies flash.mem
      ensures ok <==> FaultCall(volume.readFaults, Canonical(name)) != index
      ensures var data := volume.files[Canonical(name)];
        if ok then len == |Block(data, index)| && next == LoadAddress + offset + |Blocks(data, index + 1)| &&
          flash.mem[..] == ProgramRun(m0, offset, Blocks(data, index + 1))
        else next == address && flash.mem[..] == old(flash.mem[..])
    {
      var r := volume.ReadBlock(name, index);
      if r.ReadError? {
        return false, 0, address;
      }
      ok, len := true, |r.data|;
      ghost var data := volume.files[Canonical(name)];
      ghost var done := Blocks(data, index);
      next := flash.ProgramBytes(address, r.data);
      ProgramRunAppend(m0, offset, done, r.data);
    }

    /** One branch of SD_upload after the file opened: unlock, erase every
        sector, copy the file from `start` on, lock. */
    method FlashFile(name: string, start: nat) returns (end: nat)
      requires Valid() && volume.Opens(name) && LoadAddress <= start
      modifies flash, flash.mem
      ensures Valid() && !flash.unlocked
      ensures var data := volume.files[Canonical(name)];
        var c := CopyLength(data, volume.readFaults, Canonical(name));
        end == start + c &&
        flash.mem[..] == ProgramRun(Erased(flash.mem.Length), start - LoadAddress, data[..c]) &&
        flash.eraseLog == old(flash.eraseLog) + EraseLogUpTo(old(flash.mem[..]), flash.table, |flash.table|)
    {
      flash.Unlock();
      flash.EraseAll();
      BlankIsErased(flash.mem[..]);
      end := CopyFile(name, start);
      flash.Lock();
    }

    /** SD_upload: delete `old`; restore backup.bin if it opens, delete it
        and jump, where `appStarts` says whether the application the flash
        now holds starts; if the jump comes back, or there was no backup,
        install fw.bin if it opens and rename it to `old`. The fw.bin copy
        continues from where the backup copy ended, as main_f4.c does, or,
        with `rewind`, starts again at the load address (the correction
        Update.UploadIntended states). */
    method SdUpload(appStarts: seq<bv8> -> bool, rewind: bool) returns (launched: bool)
      requires Valid()
      modifies flash, flash.mem, volume, this`backupHandleSize
      ensures Valid()
      ensures var o := UploadFrom(Store(old(flash.mem[..]), old(flash.eraseLog), old(volume.files)),
                              flash.table, volume.mounted, volume.readFaults, appStarts, rewind);
        launched == o.launched && flash.mem[..] == o.store.mem &&
        flash.eraseLog == o.store.eraseLog && volume.files == o.store.files
      ensures flash.unlocked == (old(flash.unlocked) && !ImageOnCard(volume.mounted, old(volume.files)))
      ensures backupHandleSize == HandleSizeAfterUpload(volume.mounted, old(volume.files), old(backupHandleSize))
    {
      PipelineNames();
      ghost var s0 := Store(flash.mem[..], flash.eraseLog, volume.files);
      if volume.Opens(OldName) {
        volume.Unlink(OldName);
      }
      ghost var s1 := WithoutOld(s0, volume.mounted);
      assert volume.files == s1.files;
      var programAddr := LoadAddress;
      if volume.Opens(BackupName) {
        programAddr := RestoreBackup();
        if appStarts(flash.mem[..]) {
          return true;
        }
      }
      if rewind {
        programAddr := LoadAddress;
      }
      InstallFirmware(programAddr);
      launched := false;
    }

    /** The backup.bin branch of SD_upload up to its jump: flash
        backup.bin from the load address, take its size into the global
        handle and delete it. Returns the address after the bytes copied. */
    method RestoreBackup() returns (end: nat)
      requires Valid() && volume.mounted && BackupKey in volume.files
      modifies flash, flash.mem, volume, this`backupHandleSize
      ensures Valid() && !flash.unlocked
      ensures var data := old(volume.files)[BackupKey];
        var copied := CopyLength(data, volume.readFaults, BackupKey);
        var s2 := Flashed(Store(old(flash.mem[..]), old(flash.eraseLog), old(volume.files)),
                          flash.table, 0, data[..copied]);
        end == LoadAddress + copied &&
        flash.mem[..] == s2.mem && flash.eraseLog == s2.eraseLog &&
        volume.files == Unlinked(s2.files, BackupName)
      ensures backupHandleSize == |old(volume.files)[BackupKey]|
    {
      PipelineNames();
      backupHandleSize := |volume.files[BackupKey]|;
      end := FlashFile(BackupName, LoadAddress);
      volume.Unlink(BackupName);
    }

    /** The fw.bin branch of SD_upload, programming from absolute address
        `start`: if fw.bin opens, flash it and rename it to `old`. */
    method InstallFirmware(start: nat)
      requires Valid() && LoadAddress <= start
      modifies flash, flash.mem, volume
      ensures Valid()
      ensures var r := FirmwareStage(Store(old(flash.mem[..]), old(flash.eraseLog), old(volume.files)),
                                     flash.table, volume.mounted, volume.readFaults, start - LoadAddress);
        flash.mem[..] == r.mem && flash.eraseLog == r.eraseLog && volume.files == r.files
      ensures flash.unlocked == (old(flash.unlocked) && !(volume.mounted && FirmwareKey in old(volume.files)))
    {
      PipelineNames();
      if volume.Opens(FirmwareName) {
        ghost var s := Store(flash.mem[..], flash.eraseLog, volume.files);
        ghost var fw := volume.files[FirmwareKey];
        var end := FlashFile(FirmwareName, start);
        assert flash.mem[..] == Flashed(s, flash.table, start - LoadAddress,
                                        fw[..CopyLength(fw, volume.readFaults, FirmwareKey)]).mem;
        volume.Rename(RenamedFirmwareName, OldName);
      }
    }

    /** flash_func_read_sector: nothing past the last sector; a sector whose
        words at offsets 0, 4 and 16 are erased sets the blank flag and is not
        written; any other sector is appended to backup.bin whole, word by
        word. */
    method ReadSector(sector: nat)
      requires Valid() && volume.mounted && BackupKey in volume.files
      modifies volume, this`blankFlag, this`backupHandleSize
      ensures BackupKey in volume.files
      ensures sector >= |flash.table| ==>
        volume.files == old(volume.files) && blankFlag == old(blankFlag) &&
        backupHandleSize == old(backupHandleSize)
      ensures sector < |flash.table| && LooksBlank(flash.mem[..], flash.table, sector) ==>
        volume.files == old(volume.files) && blankFlag && backupHandleSize == old(backupHandleSize)
      ensures sector < |flash.table| && !LooksBlank(flash.mem[..], flash.table, sector) ==>
        volume.files == old(volume.files)[BackupKey := old(volume.files)[BackupKey] +
          SectorBytes(flash.mem[..], flash.table, sector)] &&
        blankFlag == old(blankFlag) &&
        backupHandleSize == old(backupHandleSize) + SectorSize(flash.table, sector)
    {
      if sector >= |flash.table| {
        return;
      }
      var blank := SectorLooksBlank(sector);
      if blank {
        blankFlag := true;
        return;
      }
      AppendSector(sector);
    }

    /** The blank test of flash_func_read_sector: the words at offsets 0, 4
        and 16 of the sector all read erased. */
    method SectorLooksBlank(sector: nat) returns (blank: bool)
      requires Valid() && sector < |flash.table|
      ensures blank == LooksBlank(flash.mem[..], flash.table, sector)
    {
      var address := flash.SectorAddress(sector);
      SectorInRegion(flash.table, sector);
      SectorBaseAligned(flash.table, sector);
      var w0 := flash.ReadWord(address);
      var w4 := flash.ReadWord(address + 4);
      var w16 := flash.ReadWord(address + 16);
      blank := w0 == ErasedWord && w4 == ErasedWord && w16 == ErasedWord;
    }

    /** The copy loop of flash_func_read_sector: every word of the sector,
        in address order, written to backup.bin. */
    method AppendSector(sector: nat)
      requires Valid() && volume.mounted && BackupKey in volume.files && sector < |flash.table|
      modifies volume, this`backupHandleSize
      ensures BackupKey in volume.files
      ensures volume.files == old(volume.files)[BackupKey := old(volume.files)[BackupKey] +
                                                SectorBytes(flash.mem[..], flash.table, sector)]
      ensures backupHandleSize == old(backupHandleSize) + SectorSize(flash.table, sector)
    {
      var address := flash.SectorAddress(sector);
      var size := SectorSize(flash.table, sector);
      SectorInRegion(flash.table, sector);
      SectorBaseAligned(flash.table, sector);
      ghost var m := flash.mem[..];
      ghost var f0 := volume.files[BackupKey];
      ghost var words := size / 4;
      ghost var base := address / 4;
      assert size == 4 * words && address == 4 * base;
      assert f0 + m[address..address] == f0;
      assert old(volume.files)[BackupKey := f0] == old(volume.files);
      var i := 0;
      ghost var j := 0;
      while i < size
        invariant j <= words && i == 4 * j
        invariant BackupKey in volume.files && volume.files[BackupKey] == f0 + m[address..address + i]
        invariant volume.files == old(volume.files)[BackupKey := volume.files[BackupKey]]
        invariant backupHandleSize == old(backupHandleSize) + i
      {
        AppendWord(address + i, base + j, m, address, old(volume.files), f0);
        backupHandleSize := backupHandleSize + 4;
        i := i + 4;
        j := j + 1;
      }
    }

    /** One pass of that loop: flash_func_read_word at word `w`, then f_write
        of its four bytes, which extends the dump of the sector from `lo` on
        by them. */
    method AppendWord(address: nat, ghost w: nat, ghost m: seq<bv8>, ghost lo: nat,
                      ghost files0: map<string, seq<bv8>>, ghost f0: seq<bv8>)
      requires Valid() && volume.mounted && m == flash.mem[..]
      requires address == 4 * w && lo <= address && address + 4 <= |m|
      requires BackupKey in volume.files && volume.files[BackupKey] == f0 + m[lo..address]
      requires volume.files == files0[BackupKey := volume.files[BackupKey]]
      modifies volume
      ensures BackupKey in volume.files && volume.files[BackupKey] == f0 + m[lo..address + 4]
      ensures volume.files == files0[BackupKey := volume.files[BackupKey]]
    {
      PipelineNames();
      assert address % 4 == 0;
      var word := flash.ReadWord(address);
      volume.Append(BackupName, WordBytes(word));
      assert m[lo..address + 4] == m[lo..address] + m[address..address + 4];
      assert (f0 + m[lo..address]) + m[address..address + 4] == f0 + m[lo..address + 4];
    }

    /** The sector loop of read_chip_to_sd, on a freshly created, empty
        backup.bin: dump sector after sector until a sector leaves the blank
        flag set, or the sectors run out. */
    method DumpSectors()
      requires Valid() && volume.mounted && BackupKey in volume.files && volume.files[BackupKey] == []
      modifies volume, this`blankFlag, this`backupHandleSize
      ensures var m, t := flash.mem[..], flash.table;
        var dump := Dump(m, t, DumpedSectors(m, t, old(blankFlag)));
        volume.files == old(volume.files)[BackupKey := dump] &&
        backupHandleSize == old(backupHandleSize) + |dump|
      ensures var m, t := flash.mem[..], flash.table;
        blankFlag == (old(blankFlag) || FirstBlankLooking(m, t, 0) < |t|)
    {
      ghost var m := flash.mem[..];
      ghost var t := flash.table;
      ghost var f0 := old(volume.files);
      assert f0[BackupKey := Dump(m, t, 0)] == f0;
      var i := 0;
      SectorSizeZeroIff(t, i);
      while SectorSize(flash.table, i) != 0
        invariant i <= |t| && BackupKey in volume.files
        invariant volume.files == f0[BackupKey := Dump(m, t, i)]
        invariant backupHandleSize == old(backupHandleSize) + |Dump(m, t, i)|
        invariant blankFlag == old(blankFlag)
        invariant forall j | 0 <= j < i :: !LooksBlank(m, t, j)
        invariant old(blankFlag) ==> i == 0
        decreases |t| - i
      {
        SectorSizeZeroIff(t, i);
        ReadSector(i);
        if LooksBlank(m, t, i) {
          assert FirstBlankLooking(m, t, 0) == i && DumpedSectors(m, t, old(blankFlag)) == i;
        } else {
          DumpStep(m, t, i);
          assert blankFlag ==> DumpedSectors(m, t, old(blankFlag)) == 1;
        }
        if blankFlag {
          break;
        }
        i := i + 1;
        SectorSizeZeroIff(t, i);
      }
      SectorSizeZeroIff(t, i);
    }

    /** The first half of read_chip_to_sd: with the flash unlocked, create
        backup.bin and, if that succeeds, dump the sectors into it. Returns
        whether the file was created. */
    method CreateBackup() returns (created: bool)
      requires Valid()
      modifies flash`unlocked, volume, this`blankFlag, this`backupHandleSize
      ensures Valid() && !flash.unlocked
      ensures created == (volume.mounted && BackupKey !in old(volume.files))
      ensures var m, t := flash.mem[..], flash.table;
        var dump := Dump(m, t, DumpedSectors(m, t, old(blankFlag)));
        created ==> volume.files == old(volume.files)[BackupKey := dump] && backupHandleSize == |dump|
      ensures !created ==> volume.files == old(volume.files) && backupHandleSize == old(backupHandleSize)
      ensures blankFlag == (old(blankFlag) || (created &&
                                               FirstBlankLooking(flash.mem[..], flash.table, 0) < |flash.table|))
    {
      PipelineNames();
      flash.Unlock();
      created := volume.CreateNew(BackupName);
      if created {
        backupHandleSize := 0;
        DumpSectors();
      }
      flash.Lock();
    }

    /** read_chip_to_sd: create backup.bin and dump sectors into it until one
        looks blank (or, with the blank flag already set, after sector 0);
        then delete backup.bin when the handle size is 0, as main_f4.c does,
        or, with `intended`, only when it was created here and is empty
        (the correction Update.DumpFilesIntended states). */
    method ReadChipToSd(intended: bool)
      requires Valid()
      modifies flash`unlocked, volume, this`blankFlag, this`backupHandleSize
      ensures Valid() && !flash.unlocked
      ensures volume.files == DumpFilesFrom(old(volume.files), volume.mounted, flash.mem[..],
                                            flash.table, old(blankFlag), old(backupHandleSize), intended)
      ensures backupHandleSize ==
        if volume.mounted && BackupKey !in old(volume.files)
        then |Dump(flash.mem[..], flash.table, DumpedSectors(flash.mem[..], flash.table, old(blankFlag)))|
        else old(backupHandleSize)
      ensures blankFlag == (old(blankFlag) || (volume.mounted && BackupKey !in old(volume.files) &&
                                               FirstBlankLooking(flash.mem[..], flash.table, 0) < |flash.table|))
    {
      var created := CreateBackup();
      if created {
        DumpFilesCreated(old(volume.files), flash.mem[..], flash.table, old(blankFlag), old(backupHandleSize), intended);
      } else {
        DumpFilesNotCreated(old(volume.files), volume.mounted, flash.mem[..], flash.table, old(blankFlag),
                            old(backupHandleSize), intended);
      }
      if backupHandleSize == 0 && (created || !intended) {
        volume.Unlink(BackupName);
      }
    }

    /** The boot-delay words main reads, at BOOT_DELAY_ADDRESS + k. */
    function DelayWord(cfg: BootConfig, k: nat): bv32
      reads this, flash, flash.mem
      requires Valid() && DelayReadable(cfg) && (k == 0 || k == 4)
    {
      if cfg.bootDelay.BootDelay? then flash.ReadWord(cfg.bootDelay.address + k) else 0
    }

    /** Both boot-delay words can be read: BOOT_DELAY_ADDRESS, when aligned,
        lies at least 8 bytes before the end of the region. */
    predicate DelayReadable(cfg: BootConfig)
      reads this, flash
    {
      cfg.bootDelay.BootDelay? && cfg.bootDelay.address % 4 == 0 ==>
        cfg.bootDelay.address + 8 <= flash.mem.Length
    }

    /** The BOOT_DELAY_ADDRESS block of main: read the two words and, when
        they carry an accepted delay, stop the boot and raise the timeout to
        the delay in milliseconds. */
    method CheckBootDelay(cfg: BootConfig, c: Choice) returns (r: Choice)
      requires Valid() && DelayReadable(cfg)
      ensures r == AfterBootDelay(c, cfg.bootDelay, DelayWord(cfg, 0), DelayWord(cfg, 4))
    {
      match cfg.bootDelay {
        case NoBootDelay =>
          r := c;
        case BootDelay(address, _, _, _) =>
          var sig1 := flash.ReadWord(address);
          var sig2 := flash.ReadWord(address + 4);
          r := ApplyBootDelay(c, cfg.bootDelay, sig1, sig2);
      }
    }

    /** The checks at the top of main: the retained signature (cleared when
        found), the boot-delay words, the force pin, VBUS and the break. */
    method DecideBoot(cfg: BootConfig, forceInput: seq<bool>, vbus: bool, breakLine: seq<bool>)
      returns (c: Choice)
      requires Valid() && DelayReadable(cfg)
      requires |forceInput| == ForcePinSamples(cfg.forcePin)
      requires cfg.usart ==> BreakWindow <= |breakLine|
      modifies this`rtcSignature
      ensures c == Decide(cfg, old(rtcSignature), DelayWord(cfg, 0), DelayWord(cfg, 4),
                          ForcePinAsserted(cfg.forcePin, forceInput), vbus,
                          cfg.usart && BreakSeen(breakLine))
      ensures rtcSignature == if old(rtcSignature) == BootRtcSignature then 0 else old(rtcSignature)
    {
      var c1 := Initial(cfg);
      var rtc := GetRtcSignature();
      if rtc == BootRtcSignature {
        c1 := Choice(false, 0);
        SetRtcSignature(0);
      }
      var c2 := CheckBootDelay(cfg, c1);
      c := CheckSignals(cfg, c2, forceInput, vbus, breakLine);
    }

    /** The boot attempt main makes: leave the fail-detect signature if the
        build asks for it, run SD_upload (as written, or with `rewind` the
        corrected one), then jump to the application. */
    method UploadAndJump(cfg: BootConfig, appStarts: seq<bv8> -> bool, rewind: bool) returns (running: bool)
      requires Valid()
      modifies this`rtcSignature, flash, flash.mem, volume, this`backupHandleSize
      ensures Valid()
      ensures var o := UploadFrom(Store(old(flash.mem[..]), old(flash.eraseLog), old(volume.files)),
                              flash.table, volume.mounted, volume.readFaults, appStarts, rewind);
        running == (o.launched || appStarts(o.store.mem)) &&
        flash.mem[..] == o.store.mem && flash.eraseLog == o.store.eraseLog &&
        volume.files == o.store.files
      ensures flash.unlocked == (old(flash.unlocked) && !ImageOnCard(volume.mounted, old(volume.files)))
      ensures backupHandleSize == HandleSizeAfterUpload(volume.mounted, old(volume.files), old(backupHandleSize))
      ensures rtcSignature == if cfg.failDetect then BootRtcSignature else old(rtcSignature)
    {
      if cfg.failDetect {
        SetRtcSignature(BootRtcSignature);
      }
      var launched := SdUpload(appStarts, rewind);
      if launched {
        return true;
      }
      running := appStarts(flash.mem[..]);
    }

    /** The try_boot block of main: the boot attempt and, when the jump
        comes back, the retained signature and no timeout. */
    method FirstAttempt(cfg: BootConfig, appStarts: seq<bv8> -> bool, rewind: bool) returns (exit: Exit)
      requires Valid()
      modifies this`rtcSignature, flash, flash.mem, volume, this`backupHandleSize
      ensures Valid()
      ensures var o := UploadFrom(Store(old(flash.mem[..]), old(flash.eraseLog), old(volume.files)),
                              flash.table, volume.mounted, volume.readFaults, appStarts, rewind);
        var running := o.launched || appStarts(o.store.mem);
        flash.mem[..] == o.store.mem && flash.eraseLog == o.store.eraseLog &&
        volume.files == o.store.files &&
        exit == (if running then AppRunning else InBootloader(0)) &&
        rtcSignature == if !running then BootRtcSignature
                        else if cfg.failDetect then BootRtcSignature else old(rtcSignature)
      ensures flash.unlocked == (old(flash.unlocked) && !ImageOnCard(volume.mounted, old(volume.files)))
      ensures backupHandleSize == HandleSizeAfterUpload(volume.mounted, old(volume.files), old(backupHandleSize))
    {
      var running := UploadAndJump(cfg, appStarts, rewind);
      if running {
        return AppRunning;
      }
      SetRtcSignature(BootRtcSignature);
      exit := InBootloader(0);
    }

    /** main up to its loop: the checks, whose outcome is `choice`, then the
        boot attempt if none fired. */
    method FirstBoot(cfg: BootConfig, forceInput: seq<bool>, vbus: bool, breakLine: seq<bool>,
                     appStarts: seq<bv8> -> bool, rewind: bool) returns (choice: Choice, exit: Exit)
      requires Valid() && DelayReadable(cfg)
      requires |forceInput| == ForcePinSamples(cfg.forcePin)
      requires cfg.usart ==> BreakWindow <= |breakLine|
      modifies this`rtcSignature, flash, flash.mem, volume, this`backupHandleSize
      ensures Valid()
      ensures choice == Decide(cfg, old(rtcSignature), old(DelayWord(cfg, 0)), old(DelayWord(cfg, 4)),
                               ForcePinAsserted(cfg.forcePin, forceInput), vbus,
                               cfg.usart && BreakSeen(breakLine))
      ensures !choice.tryBoot ==>
        exit == InBootloader(choice.timeout) && flash.mem[..] == old(flash.mem[..]) &&
        flash.eraseLog == old(flash.eraseLog) && flash.unlocked == old(flash.unlocked) &&
        volume.files == old(volume.files) && backupHandleSize == old(backupHandleSize) &&
        rtcSignature == if old(rtcSignature) == BootRtcSignature then 0 else old(rtcSignature)
      ensures var o := UploadFrom(Store(old(flash.mem[..]), old(flash.eraseLog), old(volume.files)),
                              flash.table, volume.mounted, volume.readFaults, appStarts, rewind);
        var running := o.launched || appStarts(o.store.mem);
        choice.tryBoot ==>
          flash.mem[..] == o.store.mem && flash.eraseLog == o.store.eraseLog &&
          flash.unlocked == (old(flash.unlocked) && !ImageOnCard(volume.mounted, old(volume.files))) &&
          volume.files == o.store.files &&
          backupHandleSize == HandleSizeAfterUpload(volume.mounted, old(volume.files), old(backupHandleSize)) &&
          exit == (if running then AppRunning else InBootloader(0)) &&
          rtcSignature == if !running || cfg.failDetect then BootRtcSignature else old(rtcSignature)
    {
      choice := DecideBoot(cfg, forceInput, vbus, breakLine);
      if !choice.tryBoot {
        return choice, InBootloader(choice.timeout);
      }
      exit := FirstAttempt(cfg, appStarts, rewind);
    }

    /** One turn of main's loop after bootloader(timeout) returns: go back
        in, timeout unchanged, while the force pin or the break holds;
        otherwise make the boot attempt, and stay with no timeout if the jump
        comes back. */
    method LoopTurn(cfg: BootConfig, timeout: nat, forceInput: seq<bool>, breakLine: seq<bool>,
                    appStarts: seq<bv8> -> bool, rewind: bool) returns (exit: Exit)
      requires Valid()
      requires |forceInput| == ForcePinSamples(cfg.forcePin)
      requires cfg.usart ==> BreakWindow <= |breakLine|
      modifies this`rtcSignature, flash, flash.mem, volume, this`backupHandleSize
      ensures Valid()
      ensures ForcePinAsserted(cfg.forcePin, forceInput) || (cfg.usart && BreakSeen(breakLine)) ==>
        exit == InBootloader(timeout) && flash.mem[..] == old(flash.mem[..]) &&
        flash.eraseLog == old(flash.eraseLog) && flash.unlocked == old(flash.unlocked) &&
        volume.files == old(volume.files) && backupHandleSize == old(backupHandleSize) &&
        rtcSignature == old(rtcSignature)
      ensures var o := UploadFrom(Store(old(flash.mem[..]), old(flash.eraseLog), old(volume.files)),
                              flash.table, volume.mounted, volume.readFaults, appStarts, rewind);
        !ForcePinAsserted(cfg.forcePin, forceInput) && !(cfg.usart && BreakSeen(breakLine)) ==>
          flash.mem[..] == o.store.mem && flash.eraseLog == o.store.eraseLog &&
          flash.unlocked == (old(flash.unlocked) && !ImageOnCard(volume.mounted, old(volume.files))) &&
          volume.files == o.store.files &&
          backupHandleSize == HandleSizeAfterUpload(volume.mounted, old(volume.files), old(backupHandleSize)) &&
          exit == (if o.launched || appStarts(o.store.mem) then AppRunning else InBootloader(0)) &&
          rtcSignature == if cfg.failDetect then BootRtcSignature else old(rtcSignature)
    {
      var forced := TestForcePin(cfg.forcePin, forceInput);
      if forced {
        return InBootloader(timeout);
      }
      if cfg.usart {
        var brk, consumed := TestReceivingBreak(breakLine);
        if brk {
          return InBootloader(timeout);
        }
      }
      var running := UploadAndJump(cfg, appStarts, rewind);
      if running {
        return AppRunning;
      }
      exit := InBootloader(0);
    }
  }
}
