/** Sector geometry of the STM32F4 application flash: the static sector table
    and the offsets derived from it. Every offset here is relative to the
    application load address; row 0 of the table is hardware sector 2, the
    first one after the 32 KiB reserved for the bootloader (sectors 0 and 1). */
module Geometry {

  /** One row of the static table: the hardware sector number given to the
      erase command, and the sector's size in bytes. */
  datatype Sector = Sector(number: nat, size: nat)

  const KiB: nat := 1024

  /** The table for 1 MiB and 2 MiB parts; the last twelve rows exist only on
      2 MiB devices. */
  const FlashSectors: seq<Sector> := [
    Sector(0x02, 16 * KiB),
    Sector(0x03, 16 * KiB),
    Sector(0x04, 64 * KiB),
    Sector(0x05, 128 * KiB),
    Sector(0x06, 128 * KiB),
    Sector(0x07, 128 * KiB),
    Sector(0x08, 128 * KiB),
    Sector(0x09, 128 * KiB),
    Sector(0x0a, 128 * KiB),
    Sector(0x0b, 128 * KiB),
    Sector(0x10, 16 * KiB),
    Sector(0x11, 16 * KiB),
    Sector(0x12, 16 * KiB),
    Sector(0x13, 16 * KiB),
    Sector(0x14, 64 * KiB),
    Sector(0x15, 128 * KiB),
    Sector(0x16, 128 * KiB),
    Sector(0x17, 128 * KiB),
    Sector(0x18, 128 * KiB),
    Sector(0x19, 128 * KiB),
    Sector(0x1a, 128 * KiB),
    Sector(0x1b, 128 * KiB)
  ]

  /** BOOTLOADER_RESERVATION_SIZE: flash kept for the bootloader itself. */
  const BootloaderReservation: nat := 32 * KiB

  /** The sector sizes of the STM32F4 flash: 16, 64 and 128 KiB. */
  predicate SectorSizeOfPart(size: nat) {
    size == 16 * KiB || size == 64 * KiB || size == 128 * KiB
  }

  /** What the offset arithmetic relies on: every row has one of the sizes
      the part's sectors come in. */
  predicate WellFormedTable(table: seq<Sector>) {
    forall i | 0 <= i < |table| :: SectorSizeOfPart(table[i].size)
  }

  /** The rows a build uses: the first BOARD_FLASH_SECTORS of the table, a
      build constant that may not exceed it. */
  function BoardTable(n: nat): (t: seq<Sector>)
    requires n <= |FlashSectors|
    ensures |t| == n && WellFormedTable(t)
    ensures forall i | 0 <= i < n :: t[i] == FlashSectors[i]
  {
    TableWellFormed();
    FlashSectors[..n]
  }

  /** The hardware sector numbers strictly increase along the table. */
  predicate NumbersIncrease(table: seq<Sector>) {
    forall a, b | 0 <= a < b < |table| :: table[a].number < table[b].number
  }

  /** Every board's table numbers its hardware sectors in increasing order,
      so no two rows name the same sector. */
  lemma BoardNumbersIncrease(n: nat)
    requires n <= |FlashSectors|
    ensures NumbersIncrease(BoardTable(n))
  {
  }

  /** The static table itself is well formed. */
  lemma TableWellFormed()
    ensures WellFormedTable(FlashSectors)
  {
  }

  /** flash_func_sector_size: the size of a sector, 0 past the last one. */
  function SectorSize(table: seq<Sector>, sector: nat): nat {
    if sector < |table| then table[sector].size else 0
  }

  /** The offset of a sector: the sizes of all sectors before it, added up. */
  function SectorBase(table: seq<Sector>, sector: nat): nat {
    if sector == 0 then 0 else SectorBase(table, sector - 1) + SectorSize(table, sector - 1)
  }

  /** The size of the application region the table describes. */
  function RegionSize(table: seq<Sector>): nat {
    SectorBase(table, |table|)
  }

  /** The size lookup returns 0 exactly past the last sector, so the loops that
      run "while the sector size is not 0" visit sectors 0 .. n-1. */
  lemma SectorSizeZeroIff(table: seq<Sector>, sector: nat)
    requires WellFormedTable(table)
    ensures SectorSize(table, sector) == 0 <==> |table| <= sector
    ensures sector < |table| ==> SectorSize(table, sector) >= 16 * KiB
  {
  }

  /** Sector offsets never decrease. */
  lemma {:induction false} SectorBaseMonotone(table: seq<Sector>, i: nat, j: nat)
    requires i <= j
    ensures SectorBase(table, i) <= SectorBase(table, j)
  {
    if i < j {
      SectorBaseMonotone(table, i, j - 1);
    }
  }

  /** Every sector offset is word-aligned. */
  lemma {:induction false} SectorBaseAligned(table: seq<Sector>, i: nat)
    requires WellFormedTable(table)
    ensures SectorBase(table, i) % 4 == 0
  {
    if i > 0 {
      SectorBaseAligned(table, i - 1);
      assert SectorSize(table, i - 1) % 4 == 0;
    }
  }

  /** Past the last sector the offset stays at the end of the region. */
  lemma {:induction false} SectorBaseBeyond(table: seq<Sector>, i: nat)
    requires |table| <= i
    ensures SectorBase(table, i) == RegionSize(table)
  {
    if |table| < i {
      SectorBaseBeyond(table, i - 1);
    }
  }

  /** Each sector lies wholly inside the region and ends where the next begins. */
  lemma SectorInRegion(table: seq<Sector>, i: nat)
    requires WellFormedTable(table)
    requires i < |table|
    ensures SectorBase(table, i + 1) == SectorBase(table, i) + SectorSize(table, i)
    ensures SectorBase(table, i) + SectorSize(table, i) <= RegionSize(table)
    ensures SectorSize(table, i) >= 16 * KiB && SectorSize(table, i) % 4 == 0
  {
    SectorBaseMonotone(table, i + 1, |table|);
  }

  /** The offsets of the first bank: sector 0x0b ends 992 KiB in. */
  lemma FirstBankBase()
    ensures SectorBase(FlashSectors, 10) == 992 * KiB
  {
    var t := FlashSectors;
    assert |t| == 22;
    assert SectorBase(t, 1) == SectorBase(t, 0) + t[0].size == 16 * KiB;
    assert SectorBase(t, 2) == SectorBase(t, 1) + t[1].size == 32 * KiB;
    assert SectorBase(t, 3) == SectorBase(t, 2) + t[2].size == 96 * KiB;
    assert SectorBase(t, 4) == SectorBase(t, 3) + t[3].size == 224 * KiB;
    assert SectorBase(t, 5) == SectorBase(t, 4) + t[4].size == 352 * KiB;
    assert SectorBase(t, 6) == SectorBase(t, 5) + t[5].size == 480 * KiB;
    assert SectorBase(t, 7) == SectorBase(t, 6) + t[6].size == 608 * KiB;
    assert SectorBase(t, 8) == SectorBase(t, 7) + t[7].size == 736 * KiB;
    assert SectorBase(t, 9) == SectorBase(t, 8) + t[8].size == 864 * KiB;
    assert SectorBase(t, 10) == SectorBase(t, 9) + t[9].size == 992 * KiB;
  }

  /** The whole table covers a 2 MiB part less the bootloader reservation. */
  lemma FullTableSize()
    ensures RegionSize(FlashSectors) == 2 * 1024 * KiB - BootloaderReservation
  {
    var t := FlashSectors;
    assert |t| == 22;
    FirstBankBase();
    assert SectorBase(t, 11) == SectorBase(t, 10) + t[10].size == 1008 * KiB;
    assert SectorBase(t, 12) == SectorBase(t, 11) + t[11].size == 1024 * KiB;
    assert SectorBase(t, 13) == SectorBase(t, 12) + t[12].size == 1040 * KiB;
    assert SectorBase(t, 14) == SectorBase(t, 13) + t[13].size == 1056 * KiB;
    assert SectorBase(t, 15) == SectorBase(t, 14) + t[14].size == 1120 * KiB;
    assert SectorBase(t, 16) == SectorBase(t, 15) + t[15].size == 1248 * KiB;
    assert SectorBase(t, 17) == SectorBase(t, 16) + t[16].size == 1376 * KiB;
    assert SectorBase(t, 18) == SectorBase(t, 17) + t[17].size == 1504 * KiB;
    assert SectorBase(t, 19) == SectorBase(t, 18) + t[18].size == 1632 * KiB;
    assert SectorBase(t, 20) == SectorBase(t, 19) + t[19].size == 1760 * KiB;
    assert SectorBase(t, 21) == SectorBase(t, 20) + t[20].size == 1888 * KiB;
    assert SectorBase(t, 22) == SectorBase(t, 21) + t[21].size == 2016 * KiB;
  }

  /** The offsets of a board's first n sectors do not depend on the rows
      after them. */
  lemma {:induction false} SectorBasePrefix(table: seq<Sector>, n: nat, i: nat)
    requires i <= n <= |table|
    ensures SectorBase(table[..n], i) == SectorBase(table, i)
  {
    if i > 0 {
      SectorBasePrefix(table, n, i - 1);
    }
  }

  /** The two board sizes the table serves: the first ten sectors fill a
      1 MiB part, all of them a 2 MiB part, each less the bootloader
      reservation. */
  lemma BoardRegionSizes()
    ensures RegionSize(BoardTable(10)) == 1024 * KiB - BootloaderReservation
    ensures RegionSize(BoardTable(|FlashSectors|)) == 2 * 1024 * KiB - BootloaderReservation
  {
    SectorBasePrefix(FlashSectors, 10, 10);
    FirstBankBase();
    FullTableSize();
    assert FlashSectors[..|FlashSectors|] == FlashSectors;
  }
}
