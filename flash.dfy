/** The flash primitives of the board file: word reads with their sentinel,
    blank check, sector erase and byte/word programming over the application
    region, the bounds-checked read of the OTP area, and the unique-id read,
    whose offset the model restricts to the 12-byte id.

    The application region is a byte array whose offset 0 is the application
    load address 0x08008000. Words are little-endian, as on the Cortex-M4.
    Erasing sets bytes to 0xFF; programming can only clear bits, so a
    programmed byte becomes the AND of its old value and the value written. */
module Flash {
  import opened Geometry

  /** APP_LOAD_ADDRESS: the absolute address of region offset 0. */
  const LoadAddress: nat := 0x0800_8000

  const ErasedByte: bv8 := 0xFF
  const ErasedWord: bv32 := 0xFFFF_FFFF

  /** The word whose bytes, least significant first, are b0 .. b3. */
  function Word(b0: bv8, b1: bv8, b2: bv8, b3: bv8): bv32 {
    (b0 as bv32) | ((b1 as bv32) << 8) | ((b2 as bv32) << 16) | ((b3 as bv32) << 24)
  }

  /** The four bytes of a word in memory order. */
  function WordBytes(w: bv32): (r: seq<bv8>)
    ensures |r| == 4
  {
    [(w & 0xFF) as bv8, ((w >> 8) & 0xFF) as bv8, ((w >> 16) & 0xFF) as bv8, ((w >> 24) & 0xFF) as bv8]
  }

  /** The word stored at byte offset a of m. */
  function WordAt(m: seq<bv8>, a: nat): (w: bv32)
    requires a + 4 <= |m|
    ensures WordBytes(w) == m[a..a + 4]
  {
    Word(m[a], m[a + 1], m[a + 2], m[a + 3])
  }

  /** Splitting a word into bytes and back gives the word again. */
  lemma WordOfBytes(w: bv32)
    ensures var b := WordBytes(w); Word(b[0], b[1], b[2], b[3]) == w
  {
  }

  /** Every byte of [base, base + size) reads as erased. */
  predicate Blank(m: seq<bv8>, base: nat, size: nat)
    requires base + size <= |m|
  {
    forall k | base <= k < base + size :: m[k] == ErasedByte
  }

  /** A word reads as 0xFFFFFFFF exactly when its four bytes are erased. */
  lemma ErasedWordIff(m: seq<bv8>, a: nat)
    requires a + 4 <= |m|
    ensures WordAt(m, a) == ErasedWord <==> Blank(m, a, 4)
  {
    var b := m[a..a + 4];
    assert WordBytes(WordAt(m, a)) == b;
    assert forall k | a <= k < a + 4 :: m[k] == b[k - a];
    if Blank(m, a, 4) {
      assert b == WordBytes(ErasedWord);
      WordOfBytes(ErasedWord);
    }
  }

  /** The memory after the bytes of [base, base + size) are erased. */
  function EraseRange(m: seq<bv8>, base: nat, size: nat): seq<bv8> {
    seq(|m|, k requires 0 <= k < |m| => if base <= k < base + size then ErasedByte else m[k])
  }

  /** Erasing bytes that are already blank changes nothing. */
  lemma EraseBlankUnchanged(m: seq<bv8>, base: nat, size: nat)
    requires base + size <= |m|
    requires Blank(m, base, size)
    ensures EraseRange(m, base, size) == m
  {
  }

  /** The memory after value v is programmed at byte offset `offset`;
      offsets outside the region are not part of it and are left alone. */
  function Programmed(m: seq<bv8>, offset: int, v: bv8): seq<bv8> {
    if 0 <= offset < |m| then m[offset := m[offset] & v] else m
  }

  /** The memory after the bytes of `data` are programmed one after another
      from byte offset `offset` on. */
  function ProgramRun(m: seq<bv8>, offset: nat, data: seq<bv8>): seq<bv8> {
    seq(|m|, k requires 0 <= k < |m| =>
      if offset <= k < offset + |data| then m[k] & data[k - offset] else m[k])
  }

  /** Programming one more byte extends the run by that byte. */
  lemma ProgramRunStep(m: seq<bv8>, offset: nat, data: seq<bv8>, v: bv8)
    ensures ProgramRun(m, offset, data + [v]) == Programmed(ProgramRun(m, offset, data), offset + |data|, v)
  {
    var l := ProgramRun(m, offset, data + [v]);
    var r := Programmed(ProgramRun(m, offset, data), offset + |data|, v);
    assert |l| == |r|;
    forall k | 0 <= k < |l| ensures l[k] == r[k] {
      if offset <= k < offset + |data| {
        assert (data + [v])[k - offset] == data[k - offset];
      }
    }
  }

  /** The step of a byte-programming loop: programming byte i after the
      first i extends the run to i + 1 bytes. */
  lemma ProgramRunNext(m: seq<bv8>, offset: nat, data: seq<bv8>, i: nat, before: seq<bv8>, after: seq<bv8>)
    requires i < |data|
    requires before == ProgramRun(m, offset, data[..i])
    requires after == Programmed(before, offset + i, data[i])
    ensures after == ProgramRun(m, offset, data[..i + 1])
  {
    ProgramRunStep(m, offset, data[..i], data[i]);
    assert data[..i + 1] == data[..i] + [data[i]];
  }

  /** Two runs back to back are one run of both. */
  lemma ProgramRunAppend(m: seq<bv8>, offset: nat, a: seq<bv8>, b: seq<bv8>)
    ensures ProgramRun(ProgramRun(m, offset, a), offset + |a|, b) == ProgramRun(m, offset, a + b)
  {
    var l := ProgramRun(ProgramRun(m, offset, a), offset + |a|, b);
    var r := ProgramRun(m, offset, a + b);
    assert |l| == |r|;
    forall k | 0 <= k < |l| ensures l[k] == r[k] {
      if offset <= k < offset + |a| {
        assert (a + b)[k - offset] == a[k - offset];
      } else if offset + |a| <= k < offset + |a| + |b| {
        assert (a + b)[k - offset] == b[k - offset - |a|];
      }
    }
  }

  /** On erased flash a programmed run holds exactly the bytes written, as far
      as the region reaches, and nothing else changes. */
  lemma ProgramRunOnErased(m: seq<bv8>, offset: nat, data: seq<bv8>)
    requires Blank(m, 0, |m|)
    ensures forall k | 0 <= k < |m| ::
      ProgramRun(m, offset, data)[k] == if offset <= k < offset + |data| then data[k - offset] else ErasedByte
  {
    forall k | 0 <= k < |m| && offset <= k < offset + |data|
      ensures m[k] & data[k - offset] == data[k - offset]
    {
      assert m[k] == 0xFF;
    }
  }

  /** OTP_SIZE: the bytes of one-time-programmable data. */
  const OtpSize: nat := 512
  /** The system area seen from OTP_BASE (0x1FFF7800): 512 OTP bytes, 16 OTP
      lock bytes at 0x1FFF7A00, then the 12-byte unique id at UDID_START
      (0x1FFF7A10), 0x210 bytes after OTP_BASE. */
  const UdidOffset: nat := 0x210
  const UdidSize: nat := 12
  const SystemAreaSize: nat := 0x210 + 12

  /** flash_func_read_otp: 0 for a misaligned offset or one past OTP_SIZE. */
  function ReadOtp(sys: seq<bv8>, address: nat): (w: bv32)
    requires |sys| == SystemAreaSize
    ensures address % 4 != 0 || address > OtpSize ==> w == 0
    ensures address % 4 == 0 && address <= OtpSize ==> WordBytes(w) == sys[address..address + 4]
  {
    if address % 4 != 0 then 0
    else if address > OtpSize then 0
    else WordAt(sys, address)
  }

  /** The bound is inclusive: offset 512 passes the check and reads the first
      word of the OTP lock bytes, which lie just past the OTP data. */
  lemma ReadOtpReachesLockBytes(sys: seq<bv8>)
    requires |sys| == SystemAreaSize
    ensures ReadOtp(sys, OtpSize) == WordAt(sys, OtpSize)
    ensures ReadOtp(sys, OtpSize + 4) == 0
  {
  }

  /** flash_func_read_sn: a word of the unique id, no alignment check. */
  function ReadSerial(sys: seq<bv8>, address: nat): (w: bv32)
    requires |sys| == SystemAreaSize
    requires address + 4 <= UdidSize
    ensures WordBytes(w) == sys[UdidOffset + address..UdidOffset + address + 4]
  {
    WordAt(sys, UdidOffset + address)
  }

  /** The application flash of one board: BOARD_FLASH_SECTORS sectors from
      the table, the byte contents, the write-protection latch and the log of
      hardware erase commands (hardware sector numbers, in issue order). */
  class FlashDevice {
    const table: seq<Sector>
    const mem: array<bv8>
    var unlocked: bool
    var eraseLog: seq<nat>

    ghost predicate Valid()
      reads this
    {
      WellFormedTable(table) && mem.Length == RegionSize(table)
    }

    /** A locked device with the given contents and no erase yet. */
    constructor (sectors: nat, contents: seq<bv8>)
      requires sectors <= |FlashSectors| && |contents| == RegionSize(BoardTable(sectors))
      ensures Valid() && fresh(mem)
      ensures table == BoardTable(sectors) && mem[..] == contents && !unlocked && eraseLog == []
    {
      table := BoardTable(sectors);
      mem := new bv8[|contents|](k requires 0 <= k < |contents| => contents[k]);
      unlocked := false;
      eraseLog := [];
    }

    /** flash_unlock. */
    method Unlock()
      modifies this`unlocked
      ensures unlocked
    {
      unlocked := true;
    }

    /** flash_lock. */
    method Lock()
      modifies this`unlocked
      ensures !unlocked
    {
      unlocked := false;
    }

    /** flash_func_read_word: 0 for a misaligned offset, otherwise the word at
        the load address plus the offset. */
    function ReadWord(address: nat): (w: bv32)
      reads this, mem
      requires Valid()
      requires address % 4 == 0 ==> address + 4 <= mem.Length
      ensures address % 4 != 0 ==> w == 0
      ensures address % 4 == 0 ==> WordBytes(w) == mem[address..address + 4]
      ensures address % 4 == 0 ==> w == WordAt(mem[..], address)
    {
      if address % 4 != 0 then 0 else WordAt(mem[..], address)
    }

    /** The offset loop of flash_func_erase_sector and flash_func_read_sector:
        the sizes of the sectors before `sector`, added up. */
    method SectorAddress(sector: nat) returns (address: nat)
      requires Valid()
      ensures address == SectorBase(table, sector)
    {
      address := 0;
      var i := 0;
      while i < sector
        invariant i <= sector
        invariant address == SectorBase(table, i)
      {
        address := address + SectorSize(table, i);
        i := i + 1;
      }
    }

    /** The blank check of flash_func_erase_sector: word by word, stopping at
        the first word that is not 0xFFFFFFFF. */
    method BlankCheck(address: nat, size: nat) returns (blank: bool)
      requires Valid()
      requires address % 4 == 0 && size % 4 == 0 && address + size <= mem.Length
      ensures blank <==> Blank(mem[..], address, size)
    {
      ghost var m := mem[..];
      ghost var words := size / 4;
      ghost var base := address / 4;
      assert size == 4 * words && address == 4 * base;
      blank := true;
      var i := 0;
      ghost var j := 0;
      while i < size
        invariant j <= words && i == 4 * j
        invariant blank
        invariant Blank(m, address, i)
      {
        assert address + i == 4 * (base + j);
        ErasedWordIff(m, address + i);
        if ReadWord(address + i) != ErasedWord {
          assert !Blank(m, address + i, 4);
          blank := false;
          break;
        }
        i := i + 4;
        j := j + 1;
      }
    }

    /** flash_erase_sector: the hardware erase of one table row, which the
        command names by its hardware sector number. */
    method EraseHardwareSector(sector: nat)
      requires Valid() && unlocked && sector < |table|
      modifies this`eraseLog, mem
      ensures mem[..] == EraseRange(old(mem[..]), SectorBase(table, sector), SectorSize(table, sector))
      ensures eraseLog == old(eraseLog) + [table[sector].number]
    {
      var base := SectorBase(table, sector);
      var size := SectorSize(table, sector);
      SectorInRegion(table, sector);
      forall k | base <= k < base + size {
        mem[k] := ErasedByte;
      }
      eraseLog := eraseLog + [table[sector].number];
    }

    /** flash_func_erase_sector: nothing for an index past the last sector;
        otherwise one hardware erase, issued only if the blank check fails.
        Either way the sector is blank afterwards and nothing else changes. */
    method EraseSector(sector: nat)
      requires Valid() && unlocked
      modifies this`eraseLog, mem
      ensures sector >= |table| ==> mem[..] == old(mem[..]) && eraseLog == old(eraseLog)
      ensures sector < |table| ==>
        mem[..] == EraseRange(old(mem[..]), SectorBase(table, sector), SectorSize(table, sector))
      ensures sector < |table| ==>
        eraseLog == old(eraseLog) + EraseIssued(old(mem[..]), table, sector)
    {
      if sector >= |table| {
        return;
      }
      var address := SectorAddress(sector);
      var size := SectorSize(table, sector);
      SectorInRegion(table, sector);
      SectorBaseAligned(table, sector);
      var blank := BlankCheck(address, size);
      if !blank {
        EraseHardwareSector(sector);
      } else {
        EraseBlankUnchanged(mem[..], address, size);
      }
    }

    /** The erase loop of SD_upload: flash_func_erase_sector for every index
        whose size is not 0, in index order. The whole region ends up blank,
        and one hardware erase is logged per sector that was not. */
    method EraseAll()
      requires Valid() && unlocked
      modifies this`eraseLog, mem
      ensures Blank(mem[..], 0, mem.Length)
      ensures eraseLog == old(eraseLog) + EraseLogUpTo(old(mem[..]), table, |table|)
    {
      ghost var m0 := mem[..];
      var i := 0;
      SectorSizeZeroIff(table, i);
      while SectorSize(table, i) != 0
        invariant i <= |table|
        invariant mem[..] == ErasedBelow(m0, SectorBase(table, i))
        invariant eraseLog == old(eraseLog) + EraseLogUpTo(m0, table, i)
        decreases |table| - i
      {
        ghost var before := mem[..];
        EraseSector(i);
        EraseStep(m0, table, i, before, mem[..], EraseIssued(before, table, i));
        i := i + 1;
      }
      SectorSizeZeroIff(table, i);
      assert i == |table|;
      EraseAllDone(m0, table, i, mem[..]);
    }

    /** flash_program_byte at an absolute address. An address outside the
        application region is outside this model and changes nothing here. */
    method ProgramByte(address: nat, value: bv8)
      requires Valid() && unlocked
      modifies mem
      ensures mem[..] == Programmed(old(mem[..]), address - LoadAddress, value)
    {
      if LoadAddress <= address < LoadAddress + mem.Length {
        mem[address - LoadAddress] := mem[address - LoadAddress] & value;
      }
    }

    /** The inner loop of SD_upload's copy: the bytes of one buffer, one
        flash_program_byte each, from absolute address `address` on. Returns
        the address after the last. */
    method ProgramBytes(address: nat, data: seq<bv8>) returns (next: nat)
      requires Valid() && unlocked && LoadAddress <= address
      modifies mem
      ensures next == address + |data|
      ensures mem[..] == ProgramRun(old(mem[..]), address - LoadAddress, data)
    {
      ghost var m0 := mem[..];
      next := address;
      var i := 0;
      while i < |data|
        invariant i <= |data| && next == address + i
        invariant mem[..] == ProgramRun(m0, address - LoadAddress, data[..i])
      {
        ghost var before := mem[..];
        ProgramByte(next, data[i]);
        ProgramRunNext(m0, address - LoadAddress, data, i, before, mem[..]);
        next := next + 1;
        i := i + 1;
      }
      assert data[..i] == data;
    }

    /** flash_func_write_word: programs a word at the load address plus the
        offset. */
    method WriteWord(address: nat, word: bv32)
      requires Valid() && unlocked
      modifies mem
      ensures mem[..] == ProgramRun(old(mem[..]), address, WordBytes(word))
    {
      var b := WordBytes(word);
      ghost var m0 := mem[..];
      var j := 0;
      while j < 4
        invariant j <= 4
        invariant mem[..] == ProgramRun(m0, address, b[..j])
      {
        ghost var before := mem[..];
        ProgramByte(LoadAddress + address + j, b[j]);
        ProgramRunNext(m0, address, b, j, before, mem[..]);
        j := j + 1;
      }
      assert b[..4] == b;
    }
  }

  /** The hardware erase commands that erasing `sector` issues: one for the
      sector's hardware number if it is not blank, none if it is. */
  function EraseIssued(m: seq<bv8>, t: seq<Sector>, sector: nat): seq<nat>
    requires WellFormedTable(t) && sector < |t| && |m| == RegionSize(t)
  {
    SectorInRegion(t, sector);
    if Blank(m, SectorBase(t, sector), SectorSize(t, sector)) then []
    else [t[sector].number]
  }

  /** A word written into erased flash reads back as that word. */
  lemma WriteThenRead(m: seq<bv8>, address: nat, word: bv32)
    requires address % 4 == 0 && address + 4 <= |m|
    requires Blank(m, address, 4)
    ensures WordAt(ProgramRun(m, address, WordBytes(word)), address) == word
  {
    var p := ProgramRun(m, address, WordBytes(word));
    var b := WordBytes(word);
    forall k | address <= k < address + 4 ensures p[k] == b[k - address] {
      assert m[k] == ErasedByte;
    }
    assert WordAt(p, address) == Word(b[0], b[1], b[2], b[3]);
    WordOfBytes(word);
  }

  /** The memory once every byte below `limit` is erased. */
  function ErasedBelow(m: seq<bv8>, limit: nat): (r: seq<bv8>)
    ensures |r| == |m|
  {
    seq(|m|, k requires 0 <= k < |m| => if k < limit then ErasedByte else m[k])
  }

  /** Once the loop has passed the last sector, the region is blank. */
  lemma EraseAllDone(m: seq<bv8>, t: seq<Sector>, i: nat, cur: seq<bv8>)
    requires WellFormedTable(t) && |t| <= i && |m| == RegionSize(t)
    requires cur == ErasedBelow(m, SectorBase(t, i))
    ensures Blank(cur, 0, |cur|)
  {
    SectorBaseBeyond(t, i);
  }

  /** The hardware erases issued by erasing sectors 0 .. k-1 of m in order. */
  function EraseLogUpTo(m: seq<bv8>, t: seq<Sector>, k: nat): seq<nat>
    requires WellFormedTable(t) && k <= |t| && |m| == RegionSize(t)
  {
    if k == 0 then [] else EraseLogUpTo(m, t, k - 1) + EraseIssued(m, t, k - 1)
  }

  /** Erasing sector i after sectors 0 .. i-1 erases everything below the next
      sector, and issues what erasing sector i of the original memory would,
      since the earlier erases did not touch it. */
  lemma EraseStep(m: seq<bv8>, t: seq<Sector>, i: nat, before: seq<bv8>, after: seq<bv8>, issued: seq<nat>)
    requires WellFormedTable(t) && i < |t| && |m| == RegionSize(t)
    requires before == ErasedBelow(m, SectorBase(t, i))
    requires after == EraseRange(before, SectorBase(t, i), SectorSize(t, i))
    requires issued == EraseIssued(before, t, i)
    ensures after == ErasedBelow(m, SectorBase(t, i + 1))
    ensures issued == EraseIssued(m, t, i)
    ensures EraseLogUpTo(m, t, i + 1) == EraseLogUpTo(m, t, i) + issued
  {
    SectorInRegion(t, i);
    var base, size := SectorBase(t, i), SectorSize(t, i);
    assert Blank(before, base, size) <==> Blank(m, base, size) by {
      assert forall k | base <= k < base + size :: before[k] == m[k];
    }
  }

  /** Erasing all sectors issues one hardware erase per non-blank sector, in
      index order, and none for a region that is blank already. */
  lemma {:induction false} EraseLogOfBlank(m: seq<bv8>, t: seq<Sector>, k: nat)
    requires WellFormedTable(t) && k <= |t| && |m| == RegionSize(t)
    requires Blank(m, 0, |m|)
    ensures EraseLogUpTo(m, t, k) == []
  {
    if k > 0 {
      EraseLogOfBlank(m, t, k - 1);
      SectorInRegion(t, k - 1);
      assert Blank(m, SectorBase(t, k - 1), SectorSize(t, k - 1));
    }
  }

  /** Erasing k sectors logs at most k erases, each naming a hardware sector
      of the table (EraseLogIncreasing adds that none is named twice). */
  lemma {:induction false} EraseLogBounded(m: seq<bv8>, t: seq<Sector>, k: nat)
    requires WellFormedTable(t) && k <= |t| && |m| == RegionSize(t)
    ensures |EraseLogUpTo(m, t, k)| <= k
    ensures forall j | 0 <= j < |EraseLogUpTo(m, t, k)| ::
      exists i | 0 <= i < k :: EraseLogUpTo(m, t, k)[j] == t[i].number
  {
    if k > 0 {
      EraseLogBounded(m, t, k - 1);
    }
  }

  /** On a table that numbers its sectors in increasing order, the erases
      are logged in strictly increasing order, so no sector is erased twice. */
  lemma {:induction false} EraseLogIncreasing(m: seq<bv8>, t: seq<Sector>, k: nat)
    requires WellFormedTable(t) && k <= |t| && |m| == RegionSize(t)
    requires NumbersIncrease(t)
    ensures forall a, b | 0 <= a < b < |EraseLogUpTo(m, t, k)| ::
      EraseLogUpTo(m, t, k)[a] < EraseLogUpTo(m, t, k)[b]
  {
    if k > 0 {
      EraseLogIncreasing(m, t, k - 1);
      EraseLogBounded(m, t, k - 1);
      var prev := EraseLogUpTo(m, t, k - 1);
      var log := EraseLogUpTo(m, t, k);
      assert log == prev + EraseIssued(m, t, k - 1);
      forall a, b | 0 <= a < b < |log|
        ensures log[a] < log[b]
      {
        if b >= |prev| {
          assert log[b] == t[k - 1].number;
          var i :| 0 <= i < k - 1 && prev[a] == t[i].number;
        }
      }
    }
  }

  /** A region of n erased bytes. */
  function Erased(n: nat): (r: seq<bv8>)
    ensures |r| == n && Blank(r, 0, n)
  {
    seq(n, _ => ErasedByte)
  }

  /** A blank memory is the erased memory of its size. */
  lemma BlankIsErased(m: seq<bv8>)
    requires Blank(m, 0, |m|)
    ensures m == Erased(|m|)
  {
  }

  /** The bytes of one sector, in address order. */
  function SectorBytes(m: seq<bv8>, t: seq<Sector>, sector: nat): (r: seq<bv8>)
    requires WellFormedTable(t) && |m| == RegionSize(t) && sector < |t|
    ensures |r| == SectorSize(t, sector)
    ensures SectorBase(t, sector + 1) <= |m|
  {
    SectorInRegion(t, sector);
    m[SectorBase(t, sector)..SectorBase(t, sector + 1)]
  }
}
