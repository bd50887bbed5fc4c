/** The FatFs interface the update pipeline consumes (f_open, f_read, f_write,
    f_unlink, f_rename, f_size), over an abstract volume: a map from file
    names to contents. FatFs matches names without regard to ASCII letter
    case, so the map is keyed by the upper-cased name. A read fault can be
    planted in any file: the f_read call with that index on a freshly opened
    handle reports a disk error. */
module Storage {

  /** The size of the buffer the pipeline reads into. */
  const BlockSize: nat := 512

  function UpperChar(c: char): char {
    if 'a' <= c <= 'z' then (c as int - 32) as char else c
  }

  /** The name as FatFs compares it. */
  function Canonical(name: string): (r: string)
    ensures |r| == |name|
  {
    seq(|name|, i requires 0 <= i < |name| => UpperChar(name[i]))
  }

  /** Folding case twice is folding it once, so looking up a stored key finds
      the same file. */
  lemma CanonicalIdempotent(name: string)
    ensures Canonical(Canonical(name)) == Canonical(name)
  {
  }

  /** The stored keys of the names the board file uses; "FW.bin", the name it
      renames, is the same file as "fw.bin", the name it opens. */
  const OldKey: string := "OLD"
  const BackupKey: string := "BACKUP.BIN"
  const FirmwareKey: string := "FW.BIN"

  lemma PipelineNames()
    ensures Canonical("old") == OldKey
    ensures Canonical("backup.bin") == BackupKey
    ensures Canonical("fw.bin") == FirmwareKey && Canonical("FW.bin") == FirmwareKey
  {
  }

  /** Block `index` of a file read 512 bytes at a time: a full block, then a
      short one at the end (empty when the size is a multiple of 512). */
  function Block(data: seq<bv8>, index: nat): (r: seq<bv8>)
    ensures |r| <= BlockSize
    ensures BlockSize * index + BlockSize <= |data| ==> |r| == BlockSize
    ensures |r| == BlockSize ==> BlockSize * index + BlockSize <= |data|
  {
    var lo := if BlockSize * index < |data| then BlockSize * index else |data|;
    var hi := if BlockSize * index + BlockSize < |data| then BlockSize * index + BlockSize else |data|;
    data[lo..hi]
  }

  /** Reading blocks 0 .. k-1 in turn yields the file's first 512*k bytes, or
      all of it. */
  lemma {:induction false} BlocksConcat(data: seq<bv8>, k: nat)
    requires BlockSize * k <= |data|
    ensures Blocks(data, k) == data[..BlockSize * k]
  {
    if k > 0 {
      BlocksConcat(data, k - 1);
      assert data[..BlockSize * k] == data[..BlockSize * (k - 1)] + data[BlockSize * (k - 1)..BlockSize * k];
    }
  }

  /** Blocks 0 .. k-1 of a file, concatenated. */
  function Blocks(data: seq<bv8>, k: nat): seq<bv8> {
    if k == 0 then [] else Blocks(data, k - 1) + Block(data, k - 1)
  }

  datatype ReadResult = ReadOk(data: seq<bv8>) | ReadError

  /** The file map after f_unlink: the file is gone if it was there. */
  function Unlinked(files: map<string, seq<bv8>>, name: string): (r: map<string, seq<bv8>>)
    ensures Canonical(name) !in r
    ensures forall key | key != Canonical(name) :: (key in r <==> key in files) && (key in r ==> r[key] == files[key])
  {
    files - {Canonical(name)}
  }

  /** The file map after f_rename: the contents move to the new name, unless
      the old name is missing or the new one is already taken. */
  function Renamed(files: map<string, seq<bv8>>, from: string, to: string): (r: map<string, seq<bv8>>)
    ensures Canonical(from) in files && Canonical(to) !in files ==>
      Canonical(to) in r && r[Canonical(to)] == files[Canonical(from)] &&
      (Canonical(from) != Canonical(to) ==> Canonical(from) !in r)
    ensures !(Canonical(from) in files && Canonical(to) !in files) ==> r == files
    ensures forall key | key != Canonical(from) && key != Canonical(to) ::
      (key in r <==> key in files) && (key in r ==> r[key] == files[key])
  {
    var f, t := Canonical(from), Canonical(to);
    if f in files && t !in files then (files - {f})[t := files[f]] else files
  }

  /** A mounted (or unmounted) card with its files and planted read faults. */
  class Volume {
    const mounted: bool
    var files: map<string, seq<bv8>>
    const readFaults: map<string, nat>

    constructor (mounted: bool, files: map<string, seq<bv8>>, readFaults: map<string, nat>)
      ensures this.mounted == mounted && this.files == files && this.readFaults == readFaults
    {
      this.mounted := mounted;
      this.files := files;
      this.readFaults := readFaults;
    }

    /** f_open with FA_READ succeeds. */
    predicate Opens(name: string)
      reads this
    {
      mounted && Canonical(name) in files
    }

    /** f_read number `index` on a handle opened at the start of the file:
        a disk error at the planted fault, otherwise the next block. */
    function ReadBlock(name: string, index: nat): (r: ReadResult)
      reads this
      requires Opens(name)
      ensures r.ReadError? <==> Canonical(name) in readFaults && readFaults[Canonical(name)] == index
      ensures r.ReadOk? ==> r.data == Block(files[Canonical(name)], index)
    {
      var key := Canonical(name);
      if key in readFaults && readFaults[key] == index then ReadError
      else ReadOk(Block(files[key], index))
    }

    /** f_unlink. */
    method Unlink(name: string)
      modifies this
      ensures files == if mounted then Unlinked(old(files), name) else old(files)
    {
      if mounted {
        files := Unlinked(files, name);
      }
    }

    /** f_rename. */
    method Rename(from: string, to: string)
      modifies this
      ensures files == if mounted then Renamed(old(files), from, to) else old(files)
    {
      if mounted {
        files := Renamed(files, from, to);
      }
    }

    /** f_open with FA_WRITE | FA_CREATE_NEW: fails if the file exists. */
    method CreateNew(name: string) returns (ok: bool)
      modifies this
      ensures ok <==> mounted && Canonical(name) !in old(files)
      ensures files == if ok then old(files)[Canonical(name) := []] else old(files)
    {
      ok := mounted && Canonical(name) !in files;
      if ok {
        files := files[Canonical(name) := []];
      }
    }

    /** f_write to a handle open on `name`: the bytes go at the end. */
    method Append(name: string, bytes: seq<bv8>)
      requires mounted && Canonical(name) in files
      modifies this
      ensures files == old(files)[Canonical(name) := old(files)[Canonical(name)] + bytes]
    {
      files := files[Canonical(name) := files[Canonical(name)] + bytes];
    }
  }
}
