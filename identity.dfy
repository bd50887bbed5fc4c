/** MCU identity: decoding the DBGMCU_IDCODE register, the description and
    silicon-revision tables, the description string get_mcu_desc builds, the
    known-bad silicon check and the firmware-size ceiling board_init derives
    from it. */
module Identity {
  import opened Geometry

  /** A row of mcu_descriptions: device id, label and default revision char. */
  datatype McuDescription = McuDescription(mcuid: bv16, desc: string, rev: char)

  /** A row of silicon_revs: revision id and its revision char. */
  datatype SiliconRevision = SiliconRevision(revid: bv16, rev: char)

  /** Row 0 is the default for an unknown device (STM32_UNKNOWN = 0). */
  const McuDescriptions: seq<McuDescription> := [
    McuDescription(0, "STM32F???", '?'),
    McuDescription(0x413, "STM32F40x", '?'),
    McuDescription(0x419, "STM32F42x", '?'),
    McuDescription(0x421, "STM32F446XX", '?')
  ]

  /** Known-good revisions come first; from FirstBadSiliconOffset on, every
      row is a known-bad revision. */
  const SiliconRevs: seq<SiliconRevision> := [
    SiliconRevision(0x2001, '3'),
    SiliconRevision(0x1000, 'A'),
    SiliconRevision(0x1001, 'Z'),
    SiliconRevision(0x1003, 'Y'),
    SiliconRevision(0x1007, '1')
  ]

  const FirstBadSiliconOffset: nat := 1

  /** DEV_ID: bits 0-11 of IDCODE. */
  function McuIdField(idcode: bv32): (id: bv16)
    ensures id < 0x1000
  {
    (idcode & 0xFFF) as bv16
  }

  /** REV_ID: bits 16-31 of IDCODE. */
  function RevIdField(idcode: bv32): bv16 {
    ((idcode & 0xFFFF_0000) >> 16) as bv16
  }

  /** The two fields decode what was put there, whatever bits 12-15 hold. */
  lemma IdcodeFields(rev: bv32, reserved: bv32, dev: bv32)
    requires rev < 0x1_0000 && reserved < 0x10 && dev < 0x1000
    ensures var idcode := (rev << 16) | (reserved << 12) | dev;
      McuIdField(idcode) as bv32 == dev && RevIdField(idcode) as bv32 == rev
  {
  }

  /** The index of the first row at or after `from` whose device id is
      `mcuid`, or |table| when there is none. */
  function FirstMatch(table: seq<McuDescription>, mcuid: bv16, from: nat): (k: nat)
    requires from <= |table|
    ensures from <= k <= |table|
    ensures k < |table| ==> table[k].mcuid == mcuid
    ensures forall j | from <= j < k :: table[j].mcuid != mcuid
    decreases |table| - from
  {
    if from == |table| then |table|
    else if table[from].mcuid == mcuid then from
    else FirstMatch(table, mcuid, from + 1)
  }

  /** The row get_mcu_desc settles on: the first match, or the default row 0. */
  function DescriptionIndex(mcuid: bv16): (k: nat)
    ensures k < |McuDescriptions|
    ensures (exists j | 0 <= j < |McuDescriptions| :: McuDescriptions[j].mcuid == mcuid) ==>
      McuDescriptions[k].mcuid == mcuid && forall j | 0 <= j < k :: McuDescriptions[j].mcuid != mcuid
    ensures (forall j | 0 <= j < |McuDescriptions| :: McuDescriptions[j].mcuid != mcuid) ==> k == 0
  {
    var k := FirstMatch(McuDescriptions, mcuid, 0);
    if k < |McuDescriptions| then k else 0
  }

  /** The description loop of get_mcu_desc: start from row 0, take the first
      row whose id matches and stop. */
  method FindDescription(mcuid: bv16) returns (des: McuDescription)
    ensures des == McuDescriptions[DescriptionIndex(mcuid)]
  {
    des := McuDescriptions[0];
    var i := 0;
    while i < |McuDescriptions|
      invariant i <= |McuDescriptions|
      invariant forall j | 0 <= j < i :: McuDescriptions[j].mcuid != mcuid
      invariant des == McuDescriptions[0]
    {
      if mcuid == McuDescriptions[i].mcuid {
        des := McuDescriptions[i];
        return;
      }
      i := i + 1;
    }
  }

  /** The revision char the scan of get_mcu_desc ends with: that of the last
      row whose id matches, or `default` when none does. */
  function LastRevision(revs: seq<SiliconRevision>, revid: bv16, default: char): (c: char)
    ensures (forall j | 0 <= j < |revs| :: revs[j].revid != revid) ==> c == default
    ensures (exists j | 0 <= j < |revs| :: revs[j].revid == revid) ==>
      exists j | 0 <= j < |revs| :: revs[j].revid == revid && c == revs[j].rev &&
        forall k | j < k < |revs| :: revs[k].revid != revid
  {
    if revs == [] then default
    else if revs[|revs| - 1].revid == revid then revs[|revs| - 1].rev
    else LastRevision(revs[..|revs| - 1], revid, default)
  }

  /** The revision loop of get_mcu_desc: every matching row overwrites the
      char, so the last match wins. */
  method RevisionChar(revid: bv16, default: char) returns (rev: char)
    ensures rev == LastRevision(SiliconRevs, revid, default)
  {
    rev := default;
    var i := 0;
    while i < |SiliconRevs|
      invariant i <= |SiliconRevs|
      invariant rev == LastRevision(SiliconRevs[..i], revid, default)
    {
      assert SiliconRevs[..i + 1][..i] == SiliconRevs[..i];
      if SiliconRevs[i].revid == revid {
        rev := SiliconRevs[i].rev;
      }
      i := i + 1;
    }
    assert SiliconRevs[..i] == SiliconRevs;
  }

  /** The full description get_mcu_desc would write with room to spare:
      the label, a comma and the revision char. */
  function McuDescString(idcode: bv32): string {
    var des := McuDescriptions[DescriptionIndex(McuIdField(idcode))];
    des.desc + "," + [LastRevision(SiliconRevs, RevIdField(idcode), des.rev)]
  }

  /** The string is at most thirteen chars and always ends ",<rev>". */
  lemma McuDescStringShape(idcode: bv32)
    ensures 11 <= |McuDescString(idcode)| <= 13
    ensures McuDescString(idcode)[|McuDescString(idcode)| - 2] == ','
  {
  }

  /** The chars get_mcu_desc writes with room for `room` of them. */
  function Truncated(full: string, room: int): (r: string)
    ensures |r| <= |full| && (0 <= room ==> |r| <= room)
    ensures r == full[..|r|]
    ensures |r| < |full| ==> |r| == room || (room < 0 && |r| == 0)
  {
    if room <= 0 then [] else if room < |full| then full[..room] else full
  }

  /** get_mcu_desc: writes into revstr as much of the description as fits in
      max - 1 chars (nothing when max < 2) and returns the count written. */
  method GetMcuDesc(idcode: bv32, max: int, revstr: array<char>) returns (len: int)
    requires max - 1 <= revstr.Length
    modifies revstr
    ensures 0 <= len <= revstr.Length
    ensures revstr[..len] == Truncated(McuDescString(idcode), max - 1)
    ensures revstr[len..] == old(revstr[len..])
  {
    var des := FindDescription(McuIdField(idcode));
    var rev := RevisionChar(RevIdField(idcode), des.rev);
    len := PutDescription(des.desc, rev, max - 1, revstr);
  }

  /** The pointer walk of get_mcu_desc: the label while there is room, then
      the comma and the revision char, each only if there is still room. */
  method PutDescription(desc: string, rev: char, room: int, revstr: array<char>) returns (len: int)
    requires room <= revstr.Length
    modifies revstr
    ensures 0 <= len <= revstr.Length
    ensures revstr[..len] == Truncated(desc + "," + [rev], room)
    ensures revstr[len..] == old(revstr[len..])
  {
    ghost var full := desc + "," + [rev];
    var strp := 0;
    while strp < room && strp < |desc|
      invariant 0 <= strp <= |desc|
      invariant strp <= room || strp == 0
      invariant forall k | 0 <= k < strp :: revstr[k] == full[k]
      invariant forall k | strp <= k < revstr.Length :: revstr[k] == old(revstr[k])
    {
      revstr[strp] := desc[strp];
      strp := strp + 1;
    }
    if strp < room {
      revstr[strp] := ',';
      strp := strp + 1;
    }
    if strp < room {
      revstr[strp] := rev;
      strp := strp + 1;
    }
    len := strp;
    assert len == if room <= 0 then 0 else if room < |full| then room else |full|;
    assert revstr[..len] == full[..len];
    assert revstr[len..] == old(revstr[len..]);
  }

  /** A revision the check rejects: one listed at or after the offset. */
  predicate IsBadSilicon(revid: bv16) {
    exists i | FirstBadSiliconOffset <= i < |SiliconRevs| :: SiliconRevs[i].revid == revid
  }

  /** Both sides of the offset, as the table stands: revision 3 passes and
      every revision listed from the offset on fails. */
  lemma SiliconTableSides()
    ensures !IsBadSilicon(0x2001)
    ensures forall i | FirstBadSiliconOffset <= i < |SiliconRevs| :: IsBadSilicon(SiliconRevs[i].revid)
    ensures forall i | 0 <= i < FirstBadSiliconOffset :: !IsBadSilicon(SiliconRevs[i].revid)
  {
  }

  /** check_silicon: -1 if the revision is in the known-bad part of the table,
      0 otherwise, and always 0 on targets other than FMUv2/FMUv4. */
  method CheckSilicon(fmuTarget: bool, idcode: bv32) returns (r: int)
    ensures r == -1 <==> fmuTarget && IsBadSilicon(RevIdField(idcode))
    ensures r == 0 || r == -1
  {
    if !fmuTarget {
      return 0;
    }
    var revid := RevIdField(idcode);
    var i := FirstBadSiliconOffset;
    while i < |SiliconRevs|
      invariant FirstBadSiliconOffset <= i <= |SiliconRevs|
      invariant forall j | FirstBadSiliconOffset <= j < i :: SiliconRevs[j].revid != revid
    {
      if SiliconRevs[i].revid == revid {
        return -1;
      }
      i := i + 1;
    }
    return 0;
  }

  /** APP_SIZE_MAX: the board's flash less the bootloader reservation. */
  function AppSizeMax(flashSize: nat): int {
    flashSize - BootloaderReservation
  }

  /** board_info.fw_size as board_init leaves it: APP_SIZE_MAX, lowered to
      1 MiB less the reservation only on an FMUv2/FMUv4 target whose silicon
      check fails while the ceiling is that of a 2 MiB part. */
  function FirmwareSize(flashSize: nat, fmuTarget: bool, idcode: bv32): (size: int)
    ensures size <= AppSizeMax(flashSize)
    ensures size < AppSizeMax(flashSize) <==>
      fmuTarget && IsBadSilicon(RevIdField(idcode)) && flashSize == 2 * 1024 * KiB
    ensures size < AppSizeMax(flashSize) ==> size == 1024 * KiB - BootloaderReservation
  {
    if fmuTarget && IsBadSilicon(RevIdField(idcode)) &&
       AppSizeMax(flashSize) == 2 * 1024 * KiB - BootloaderReservation
    then 1024 * KiB - BootloaderReservation
    else AppSizeMax(flashSize)
  }
}
