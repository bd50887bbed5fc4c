# STM32F4 bootloader board file, modelled in Dafny

This project models the board file of a PX4-style bootloader for STM32F4
parts, `main_f4.c`, extended with an SD-card update path. It covers:

- **Flash geometry.** The sector table, the application region that
  starts at 0x08008000 behind the 32 KiB bootloader reservation, and
  `flash_func_sector_size`.
- **Flash primitives.** Word reads return 0 at a misaligned offset. The
  blank check skips the hardware erase of a sector that already reads
  0xFFFFFFFF. Byte and word programming can only clear bits. The source
  bounds-checks the OTP read. The model also restricts the unique-id
  offset (the requires of Flash.ReadSerial), which the source does not.
- **MCU identity.** Decoding DBGMCU_IDCODE, the description string
  `get_mcu_desc` writes, the known-bad silicon check and the
  `board_info.fw_size` ceiling `board_init` derives from it.
- **Retained RTC register.** The signature that asks for the bootloader
  on the next reset.
- **Sampled boot signals.** The force-bootloader strap test and the USART
  break probe, over injected pin samples.
- **Boot decision.** What `main` decides before the bootloader starts
  (`try_boot` and `timeout`), its boot attempt, and one turn of its loop
  around `bootloader()`.
- **SD-card pipeline.** `SD_upload` deletes `old`, restores `backup.bin`
  and jumps, or else installs `fw.bin` and renames it to `old`.
  `read_chip_to_sd` dumps the flash sector by sector into a new
  `backup.bin`.

Modules:

| module | file | what it holds |
|---|---|---|
| `Geometry` | geometry.dfy | sector table and offsets |
| `Flash` | flash.dfy | `FlashDevice` class over an `array<bv8>`, with an erase log |
| `Storage` | storage.dfy | `Volume` class: the card's files under FatFs case-folding, with injected read faults |
| `Identity` | identity.dfy | IDCODE decoding, string building, silicon check, firmware size |
| `Sampling` | sampling.dfy | force-pin and break tests |
| `Decision` | decision.dfy | boot decision as functions, plus the two methods that evaluate it |
| `Update` | update.dfy | `SD_upload` and `read_chip_to_sd` as functions of the state before them |
| `Board` | board.dfy | `Board` class: RTC register, globals, flash and card, and the board file's operations as methods proved against those functions |

How the environment is modelled:

- **Flash.** Offset 0 of the region is APP_LOAD_ADDRESS. Words are
  little-endian. Erasing sets bytes to 0xFF. Programming ANDs the value
  into the byte.
- **Card.** Each file may carry the index of the `f_read` call that fails
  on it.
- **`jump_to_app`.** A parameter `appStarts`, a predicate on the flash
  contents. When it holds, the jump does not come back.
- **Pins and the break line.** Sequences of samples.
- **Build options.** A `BootConfig` value: BOOTLOADER_DELAY, the
  boot-delay signature, the force-pin hardware, INTERFACE_USB,
  INTERFACE_USART and BOARD_BOOT_FAIL_DETECT.
- **Board constants.** BOARD_FLASH_SECTORS is the table length.
  BOARD_FLASH_SIZE and the FMU target are constants of the board.

## Model

| member | source | states |
|---|---|---|
| Geometry.BoardTable | main_f4.c:25-55 | a board uses the first BOARD_FLASH_SECTORS rows of the static table, unchanged, and that prefix is well formed |
| Geometry.TableWellFormed | main_f4.c:25-55 | every row of the static table has a 16, 64 or 128 KiB sector size |
| Geometry.SectorSize | main_f4.c:507-516 | `flash_func_sector_size`: the row's size, or 0 past the last row; its properties are the next row's lemma |
| Geometry.SectorSizeZeroIff | main_f4.c:507-516 | the size lookup returns 0 exactly for an index past the last sector, so the "size != 0" loops visit sectors 0 .. n-1 |
| Geometry.SectorBaseMonotone | main_f4.c:518-573 | sector offsets never decrease with the index |
| Geometry.SectorBaseAligned | main_f4.c:518-573 | every sector offset the erase and read loops compute is word-aligned |
| Geometry.SectorBaseBeyond | main_f4.c:518-573 | past the last sector the offset stays at the end of the region |
| Geometry.SectorInRegion | main_f4.c:25-56 | each sector lies wholly inside the region, at least 16 KiB, and ends where the next begins |
| Geometry.FirstBankBase | main_f4.c:25-55 | the first ten rows end 992 KiB after the load address |
| Geometry.FullTableSize | main_f4.c:25-56 | the 22 rows cover a 2 MiB part less the 32 KiB reservation |
| Geometry.SectorBasePrefix | main_f4.c:25-55 | a board's sector offsets do not depend on the rows it does not use |
| Geometry.BoardNumbersIncrease | main_f4.c:25-55 | every board's rows name strictly increasing hardware sectors, so no two rows name the same one |
| Geometry.BoardRegionSizes | main_f4.c:25-56 | ten rows fill a 1 MiB part and all rows a 2 MiB part, each less the reservation |
| Flash.WordOfBytes | main_f4.c:581-589 | splitting a word into its memory bytes and joining them gives the word back |
| Flash.ErasedWordIff | main_f4.c:545-573 | a word reads 0xFFFFFFFF exactly when its four bytes are erased |
| Flash.EraseBlankUnchanged | main_f4.c:545-573 | skipping the erase of a blank sector leaves the same memory as erasing it |
| Flash.ProgramRunStep | main_f4.c:786-792 | programming one more byte extends a programmed run by exactly that byte |
| Flash.ProgramRunNext | main_f4.c:786-792 | the byte loop's step, between the memories before and after one byte |
| Flash.ProgramRunAppend | main_f4.c:786-799 | two runs programmed back to back equal one run of both buffers |
| Flash.ProgramRunOnErased | main_f4.c:779-799 | on erased flash a run reads back exactly the bytes written, and every other byte stays erased |
| Flash.ReadOtp | main_f4.c:592-604 | 0 for a misaligned offset or one beyond OTP_SIZE, else the four OTP bytes at that offset |
| Flash.ReadOtpReachesLockBytes | main_f4.c:592-604 | the bound is inclusive: offset 512 passes and reads the first lock word; offset 516 reads 0 |
| Flash.ReadSerial | main_f4.c:667-673 | the word of the unique id at UDID_START plus the offset, with no alignment check |
| Flash.FlashDevice.constructor | main_f4.c:25-56 | a locked device over BOARD_FLASH_SECTORS rows, holding the given contents, with no erase yet |
| Flash.FlashDevice.Unlock | main_f4.c:779 | `flash_unlock` lifts the write protection |
| Flash.FlashDevice.Lock | main_f4.c:804 | `flash_lock` restores it |
| Flash.FlashDevice.ReadWord | main_f4.c:581-589 | 0 for a misaligned offset, otherwise the four bytes at the load address plus the offset |
| Flash.FlashDevice.SectorAddress | main_f4.c:553-557 | the offset loop gives the sum of the sizes of the earlier sectors |
| Flash.FlashDevice.BlankCheck | main_f4.c:559-568 | the word-by-word scan that stops at the first non-erased word says "blank" exactly when every byte of the sector is 0xFF |
| Flash.FlashDevice.EraseHardwareSector | main_f4.c:570-572 | the hardware erase sets the sector's bytes to 0xFF, touches nothing else, and logs its hardware sector number |
| Flash.FlashDevice.EraseSector | main_f4.c:545-573 | past the last sector nothing happens; otherwise the sector ends blank, the rest is unchanged, and a hardware erase is issued only if the sector was not blank |
| Flash.FlashDevice.EraseAll | main_f4.c:779-783 | the erase loop leaves the whole region blank and logs one erase per non-blank sector, in index order |
| Flash.FlashDevice.ProgramByte | main_f4.c:791 | `flash_program_byte` ANDs the value into the byte at the absolute address |
| Flash.FlashDevice.ProgramBytes | main_f4.c:786-792 | the buffer is programmed from the absolute address on, and the next address is returned |
| Flash.FlashDevice.WriteWord | main_f4.c:575-579 | a word is programmed at the load address plus the offset, in little-endian byte order |
| Flash.WriteThenRead | main_f4.c:575-589 | a word written into erased flash reads back as that word |
| Flash.EraseAllDone | main_f4.c:779-783 | once the loop passes the last sector, the region is blank |
| Flash.EraseStep | main_f4.c:779-783 | erasing sector i after the earlier ones issues what erasing it in the original memory would |
| Flash.EraseLogOfBlank | main_f4.c:555-571 | a region that is already blank issues no hardware erase |
| Flash.EraseLogBounded | main_f4.c:779-783 | erasing k sectors logs at most k erases, each naming a sector of the table |
| Flash.EraseLogIncreasing | main_f4.c:779-783 | on a table whose sector numbers increase, the logged erases strictly increase, so no sector is erased twice |
| Flash.BlankIsErased | main_f4.c:779-783 | a blank region is the erased region of its size |
| Storage.CanonicalIdempotent | main_f4.c:844 | folding a name's case twice is folding it once |
| Storage.PipelineNames | main_f4.c:770-844 | "fw.bin" and "FW.bin" name the same file; "old" and "backup.bin" have their own keys |
| Storage.BlocksConcat | main_f4.c:786-797 | reading 512-byte blocks 0 .. k-1 in turn yields the file's first 512*k bytes |
| Storage.Unlinked | main_f4.c:775 | `f_unlink` removes exactly the named file |
| Storage.Renamed | main_f4.c:844 | `f_rename` moves the contents to the new name and touches no other file |
| Storage.Volume.ReadBlock | main_f4.c:789 | `f_read` fails exactly at the file's planted fault, and otherwise returns that 512-byte block, short at the end of the file |
| Storage.Volume.Unlink | main_f4.c:775 | `f_unlink` on a mounted card |
| Storage.Volume.Rename | main_f4.c:844 | `f_rename` on a mounted card |
| Storage.Volume.CreateNew | main_f4.c:860 | `FA_CREATE_NEW` succeeds only when the file does not exist, and then creates it empty |
| Storage.Volume.Append | main_f4.c:539-542 | `f_write` appends its bytes to the file |
| Identity.McuIdField | main_f4.c:63-70 | DEV_ID is bits 0-11 of IDCODE |
| Identity.IdcodeFields | main_f4.c:611-620 | DEV_ID and REV_ID decode the fields put there, whatever bits 12-15 hold |
| Identity.FirstMatch | main_f4.c:622-627 | the first table row at or after `from` with the device id, or the table length |
| Identity.DescriptionIndex | main_f4.c:622-627 | the first row whose id matches, or the default row 0 when none does |
| Identity.FindDescription | main_f4.c:622-627 | the description loop stops at that row |
| Identity.LastRevision | main_f4.c:629-633 | the revision char is that of the last row whose id matches, or the device default when none does |
| Identity.RevisionChar | main_f4.c:629-633 | the revision loop, where each match overwrites the char, computes that char |
| Identity.McuDescStringShape | main_f4.c:611-648 | the full description is 11 to 13 chars and ends with a comma and the revision char |
| Identity.Truncated | main_f4.c:635-647 | what fits in `room` chars: a prefix of the description, cut exactly at `room` when it is shorter |
| Identity.PutDescription | main_f4.c:635-647 | the pointer walk writes that prefix, returns its length, and leaves the rest of the buffer alone |
| Identity.GetMcuDesc | main_f4.c:611-648 | `get_mcu_desc` writes at most max - 1 chars of the description, nothing when max < 2, and returns the count |
| Identity.SiliconTableSides | main_f4.c:118-127 | revision 3 is good; every row from FIRST_BAD_SILICON_OFFSET on is bad; the rows before it are not |
| Identity.CheckSilicon | main_f4.c:651-665 | -1 exactly on an FMUv2/FMUv4 target whose REV_ID is in the bad part of the table, else 0 |
| Identity.FirmwareSize | main_f4.c:129 | `fw_size` is at most APP_SIZE_MAX, and below it exactly on bad FMU silicon of a 2 MiB part, where it is 1 MiB less the reservation |
| Sampling.DrivenAt | main_f4.c:205-230 | read j of a cycle falls in the high half exactly for the first 20 |
| Sampling.Thresholds | main_f4.c:203-256 | "more than 90%" means at least 361 of 400 reads, or 181 of 200 |
| Sampling.TestStrappedPins | main_f4.c:205-231 | the nested loops take 400 reads and report the strap exactly when more than 90% follow the driven level |
| Sampling.TestSinglePin | main_f4.c:233-254 | 200 reads, forced exactly when more than 90% show the forcing level |
| Sampling.TestForcePin | main_f4.c:203-256 | the test the board compiles in, or false when it has none |
| Sampling.HighReadsStep | main_f4.c:205-230 | counting the high-half reads, cycle by cycle |
| Sampling.ConstantInputVotes | main_f4.c:205-230 | an input stuck at one level follows the driven level only on the reads where the two already match |
| Sampling.ConstantInputRejected | main_f4.c:205-231 | an input stuck at either level is never taken for the strap |
| Sampling.FollowingInputVotes | main_f4.c:205-231 | an input that follows the output on every read gets all the votes |
| Sampling.TrailingLowsIff | main_f4.c:281-300 | the low counter reaches n exactly when the last n samples are all low |
| Sampling.TestReceivingBreak | main_f4.c:259-317 | true exactly when 18 consecutive low samples occur within the 60-sample window; stops at the first such run; otherwise takes all 60 |
| Decision.DelaySeconds | main_f4.c:935 | the requested delay is the low byte of the first word, at most 255 s |
| Decision.AfterRtc | main_f4.c:902-919 | the retained signature stops the boot with no timeout; any other value changes nothing |
| Decision.AfterBootDelay | main_f4.c:921-946 | an accepted delay stops the boot and raises the timeout to the delay in ms; anything else changes nothing |
| Decision.ApplyBootDelay | main_f4.c:930-944 | main's comparison of the two words computes that |
| Decision.AfterSignal | main_f4.c:948-985 | a signal that is present stops the boot and leaves the timeout alone |
| Decision.Decide | main_f4.c:880-985 | all of main's checks in order; what they decide is stated by TryBootIff, TimeoutValue, OverlongDelayIgnored and RetainedSignatureHolds |
| Decision.CheckSignals | main_f4.c:948-985 | the force-pin, VBUS and break checks, each compiled in only with its interface, applied in main's order |
| Decision.TryBootIff | main_f4.c:880-990 | main tries to boot exactly when no check fired |
| Decision.TimeoutValue | main_f4.c:880-946 | the timeout is BOOTLOADER_DELAY, or 0 after the signature, raised to an accepted delay if that is longer |
| Decision.OverlongDelayIgnored | main_f4.c:921-946 | a delay above BOOT_DELAY_MAX is ignored altogether |
| Decision.RetainedSignatureHolds | main_f4.c:902-946 | after the retained signature the bootloader waits for an upload without a timeout, unless a non-zero delay is accepted |
| Update.CopyLength | main_f4.c:786-799 | the copy programs the whole file, or fewer bytes only when a planted read fault is reached |
| Update.CopyStep | main_f4.c:786-799 | each turn of the do-while: a failed read ends the copy with the blocks so far; a whole block continues; a short block completes the file |
| Update.CopiedAreReadBlocks | main_f4.c:786-799 | the bytes copied are exactly the blocks the successful reads returned, in order |
| Update.Flashed | main_f4.c:779-799 | a branch's store: the region erased, then the copied bytes programmed; the files are unchanged |
| Update.FirmwareStage | main_f4.c:813-845 | the fw.bin branch keeps the region size |
| Update.Upload | main_f4.c:751-848 | `SD_upload` as written, with program_addr carried into the fw.bin branch; it keeps the region size (see Findings) |
| Update.UploadIntended | main_f4.c:751-848 | `SD_upload` with program_addr reset for the fw.bin branch; it keeps the region size |
| Update.UploadFrom | main_f4.c:751-848 | `SD_upload` keeps the region size |
| Update.NoImageNoFlashing | main_f4.c:770-848 | an unreadable card, or one with neither image, leaves the flash and erase log alone; only `old` is deleted |
| Update.BackupTakesPriority | main_f4.c:777-811 | with a backup.bin the application starts exactly when the restored image starts; backup.bin is gone and its erase pass comes first; after a successful jump fw.bin is untouched |
| Update.FirmwareBecomesOld | main_f4.c:813-845 | with only fw.bin, it is flashed from the load address and becomes `old`, even after a failed read; no other file changes |
| Update.ProgramAddressCarried | main_f4.c:751-841 | as written, when the restored backup does not start, fw.bin is programmed from where the backup copy ended and the load address stays erased |
| Update.ProgramAddressCarriedExample | main_f4.c:751-841 | a 512-byte backup.bin that does not start puts fw.bin's first byte at 0x08008200 and leaves 0x08008000 erased |
| Update.IntendedFirmwareAtLoadAddress | main_f4.c:813-845 | with program_addr reset, fw.bin is installed at the load address, exactly as if no backup.bin had been there |
| Update.LooksBlank | main_f4.c:527-538 | the blank test of `flash_func_read_sector`: the words at offsets 0, 4 and 16 of the sector all read 0xFFFFFFFF |
| Update.FirstBlankLooking | main_f4.c:862-869 | the first sector at or after `from` that looks blank: every sector before it does not |
| Update.DumpedSectors | main_f4.c:862-869 | the sector loop dumps the sectors before the first blank-looking one; a flag left set stops it after sector 0 |
| Update.Dump | main_f4.c:518-544 | the dump of k sectors is the first SectorBase(k) bytes of the region |
| Update.DumpStep | main_f4.c:518-544 | dumping one more sector appends exactly that sector's bytes |
| Update.DumpFilesCreated | main_f4.c:860-874 | when the create succeeds, the new file holds the dump and is deleted exactly when the dump is empty |
| Update.DumpFilesNotCreated | main_f4.c:860-874 | when it fails, no sector is read, and the old file goes only if the stale handle size is 0 |
| Update.DumpFiles | main_f4.c:851-876 | `read_chip_to_sd` as written, deleting backup.bin whenever the handle size is 0; DumpIsFlashPrefix and ExistingBackupDeleted state what it does |
| Update.DumpFilesIntended | main_f4.c:851-876 | `read_chip_to_sd` deleting only an empty file it created; DumpIsFlashPrefix and IntendedKeepsExistingBackup state what it does |
| Update.DumpIsFlashPrefix | main_f4.c:851-876 | a new backup.bin holds the flash up to the first blank-looking sector, and is kept exactly when that is not empty |
| Update.DumpKeepsOtherFiles | main_f4.c:851-876 | `read_chip_to_sd` touches no file but backup.bin |
| Update.ExistingBackupDeleted | main_f4.c:860-874 | as written, an existing backup.bin is deleted when the global handle's size is still 0 |
| Update.IntendedKeepsExistingBackup | main_f4.c:860-874 | deleting only a file created by this call never loses an existing backup.bin or any other file, and still removes an empty new one |
| Board.Board.constructor | main_f4.c:23 | the board out of reset: globals zeroed, the retained register as it was left |
| Board.Board.GetRtcSignature | main_f4.c:175-188 | reads the retained register |
| Board.Board.SetRtcSignature | main_f4.c:190-201 | writes the retained register and nothing else |
| Board.Board.RtcRoundTrip | main_f4.c:175-201 | a signature written is the signature read back |
| Board.Board.BoardInit | main_f4.c:321-329 | `board_init` leaves `fw_size` as Identity.FirmwareSize says |
| Board.Board.CopyFile | main_f4.c:786-799 | the do-while copy programs CopyLength bytes of the file from the given address on and returns the address after them |
| Board.Board.CopyBlock | main_f4.c:787-792 | one turn: the read fails exactly at the planted fault and changes nothing; otherwise the block is programmed next |
| Board.Board.FlashFile | main_f4.c:778-801 | unlock, erase all, copy, lock: the region holds the copied bytes on erased flash, plus the erase log of that pass |
| Board.Board.SdUpload | main_f4.c:751-848 | `SD_upload` changes flash, erase log and files exactly as Update.UploadFrom says: without `rewind` fw.bin continues where the backup copy ended, as main_f4.c does (Update.Upload); with it, it starts at the load address (Update.UploadIntended). It returns whether the jump started the application, leaves the flash locked after opening an image (unchanged otherwise), and leaves the handle size that of backup.bin when it opened |
| Board.Board.RestoreBackup | main_f4.c:777-807 | the backup.bin branch up to the jump: backup.bin is flashed from the load address as Update.Flashed says, the handle takes its size, it is deleted, and the address after the bytes copied is returned |
| Board.Board.InstallFirmware | main_f4.c:814-847 | the fw.bin branch from any start address: the store becomes Update.FirmwareStage of it, and the flash ends locked exactly when fw.bin opened |
| Board.Board.SectorLooksBlank | main_f4.c:527-538 | the blank test of `flash_func_read_sector` is Update.LooksBlank |
| Board.Board.ReadSector | main_f4.c:518-544 | past the last sector nothing happens; a blank-looking sector sets the flag and writes nothing; any other sector is appended whole to backup.bin |
| Board.Board.AppendSector | main_f4.c:539-542 | the word loop appends the sector's bytes in address order and grows the handle by the sector size |
| Board.Board.AppendWord | main_f4.c:540-541 | one word is read and its four bytes are appended |
| Board.Board.DumpSectors | main_f4.c:862-869 | the sector loop writes Update.Dump of Update.DumpedSectors and sets the flag exactly when a blank-looking sector is met |
| Board.Board.CreateBackup | main_f4.c:857-871 | the create succeeds exactly when backup.bin did not exist on a mounted card, and only then are sectors dumped |
| Board.Board.ReadChipToSd | main_f4.c:851-876 | `read_chip_to_sd` leaves the files as Update.DumpFilesFrom says: without `intended` backup.bin is deleted whenever the handle size is 0, as main_f4.c does (Update.DumpFiles); with it, only when this call created it empty (Update.DumpFilesIntended). The new handle size is the dump's length when the file was created, and unchanged otherwise |
| Board.Board.CheckBootDelay | main_f4.c:921-946 | the boot-delay block reads the two words and applies Decision.AfterBootDelay to them |
| Board.Board.DecideBoot | main_f4.c:880-985 | the checks at the top of main compute Decision.Decide on the register, the delay words and the samples, and clear a retained signature they find |
| Board.Board.UploadAndJump | main_f4.c:990-999 | leaves the fail-detect signature when built with it, runs SD_upload (as written, or corrected with `rewind`), then the jump; flash, erase log, lock, files and handle size as SdUpload states |
| Board.Board.FirstAttempt | main_f4.c:990-1004 | the boot attempt as UploadAndJump states, with the same `rewind` choice; a jump that comes back leaves the retained signature and a zero timeout |
| Board.Board.FirstBoot | main_f4.c:878-1004 | main up to its loop: the decision, then either the bootloader with that timeout and flash, erase log, lock, files and handle size unchanged, or the boot attempt with every one of them as SdUpload states (main_f4.c as written when `rewind` is false) |
| Board.Board.LoopTurn | main_f4.c:1026-1055 | after `bootloader()` returns: straight back, timeout unchanged, while the force pin or break holds, with flash, erase log, lock, files and handle size unchanged; otherwise the boot attempt, with those as SdUpload states (main_f4.c as written when `rewind` is false), then timeout 0 |

## Left out

- Clock, GPIO, SysTick and USART bring-up and teardown (`board_init` beyond `fw_size`, `board_deinit`, `clock_deinit`, `UART7_init`): peripheral register programming with no observable data.
- `uart7_cout` messages and LED toggles, including the `Res % 100` progress counter in SD_upload: diagnostics only.
- FatFs internals. Mounting and the card are the `Volume` class, and `f_close` is not modelled.
- `f_write` failures while dumping a sector: the write is taken to succeed.
- `bootloader()`, `cinit` and the protocol: external to this file. `jump_to_app` is the `appStarts` predicate.
- The PWR_CR and RCC_BDCR bracket around the retained-register access: register enables with no observable data.
- Floating point and the clock tables.
- Build-time choices are parameters (`BootConfig`, the table length, the board constants), not preprocessor branches.
- Flash.ReadSerial: requires the offset to lie inside the 12-byte unique id. The source reads any address there without a check.
- Flash.FlashDevice.ReadWord: requires an aligned offset to lie inside the region, while the source reads any address; every call in main_f4.c is in the region.
- Flash.FlashDevice.ProgramByte: programming outside the application region changes nothing here, so the reserved bootloader sectors are not modelled. `program_addr` is unbounded, with no 32-bit wrap-around.
- Update.CopyLength: all of a file's reads are counted in bytes. The `uint8_t` counter `Res` is not modelled, because only the progress message reads it.
- `read_chip_to_sd` is not called from `main` (the call is commented out). It is modelled as the source defines it.
- In main_f4.c, backup.bin is unlinked (main_f4.c:807) and fw.bin renamed (main_f4.c:844) even after a failed `f_read`; the model does the same.
- Each branch of SD_upload erases every sector of the region (main_f4.c:779-783, 818-822), not only those the image covers; the model does the same.
- program_addr carries over from the backup.bin branch into the fw.bin branch (main_f4.c:753, 826-830); see Findings.

## Findings

| source | as written | input that shows it | evidently intended | confidence | as-written member | corrected member |
|---|---|---|---|---|---|---|
| main_f4.c:753, 786-790, 826-830 | `program_addr` starts at 0x08008000 once; the backup.bin copy advances it, and the fw.bin branch starts from where it stopped | a 512-byte backup.bin whose image does not start, and a non-empty fw.bin: after the erase, fw.bin byte 0 is programmed at 0x08008200 and 0x08008000 stays 0xFF | each branch programs its image from the load address | not executed | Update.Upload, Update.ProgramAddressCarriedExample | Update.UploadIntended, Update.IntendedFirmwareAtLoadAddress |
| main_f4.c:860, 871-874 | when `FA_CREATE_NEW` fails because backup.bin exists, `f_size` reads the global handle's stale size (0 if it was never opened) and the existing file is deleted | a mounted card already holding backup.bin, on a first call: backup.bin is gone afterwards | delete only an empty file that this call created | not executed | Update.DumpFiles, Update.ExistingBackupDeleted | Update.DumpFilesIntended, Update.IntendedKeepsExistingBackup |

Both behaviours are available in the `Board` class. Board.Board.SdUpload,
and the `main` methods UploadAndJump, FirstAttempt, FirstBoot and LoopTurn,
take a `rewind` flag. With it false they follow main_f4.c as written; with it
true they apply the correction of the first row. Board.Board.ReadChipToSd
takes an `intended` flag, which works the same way for the second row.
