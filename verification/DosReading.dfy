/** Extracting a file from an Atari DOS disk, and exactly when that yields the bytes that were inserted. */
module DosReading {
  import opened SectorBitmap
  import opened DosDisk
  import opened DosFiles
  import opened DosErasing

  /** Whether reading finished, and the bytes written to the target up to then. */
  datatype Extracted = Extracted(ok: bool, bytes: seq<Byte>)

  function Resized(data: seq<Byte>, n: int): seq<Byte> {
    if n <= 0 then [] else if n <= |data| then data[..n] else data + seq(n - |data|, _ => 0)
  }

  /** The bytes taken from sector s. */
  function Chunk(d: Disk, s: nat, dos10: bool, signed: bool): seq<Byte>
    requires s in d.image
  {
    var length := At(d, s, d.density.Room() + 2);
    var size := CharValue(length, signed);
    if !dos10 then Resized(d.image[s], size)
    else if length >= 0x80 then Resized(d.image[s], size - 0x80)
    else Resized(d.image[s], 125)
  }

  function ReadChain(d: Disk, e: FileEntry, s: Word, n: Word, signed: bool): Extracted
    decreases n
  {
    if n == 0 || s == 0 then Extracted(true, [])
    else if s !in d.image || (!e.myDos && OwnerOf(d, s) != e.no) then Extracted(false, [])
    else
      var rest := ReadChain(d, e, LinkOf(d, s, e.myDos), n - 1, signed);
      Extracted(rest.ok, Chunk(d, s, e.dos10, signed) + rest.bytes)
  }

  /** The number of sectors that are read: the size is cut to 16 bits before the division. */
  function SectorsRead(size: int, room: nat): Word
    requires room > 0
  {
    size % 0x10000 / room
  }

  function Extract(d: Disk, e: FileEntry, signed: bool): Extracted {
    ReadChain(d, e, e.first, SectorsRead(e.size, d.density.Room()), signed)
  }

  // ---------- Reading a sound chain ----------

  lemma ChunkOf(d: Disk, s: nat, signed: bool)
    requires Shaped(d) && s in d.image && LengthOf(d, s) <= d.density.Room()
    ensures Chunk(d, s, false, signed) == if signed && LengthOf(d, s) >= 0x80 then [] else Payload(d, s)
  {
  }

  /** With signed bytes, a sector that holds more than 127 bytes is read as empty. */
  predicate Readable(density: Density, length: nat, signed: bool) {
    !signed || density.Single? || length < 0x80
  }

  lemma ReadStep(d: Disk, e: FileEntry, s: Word, n: nat, k: Word, signed: bool)
    requires Shaped(d) && ChainSound(d, e.no, s, n) && !e.myDos && !e.dos10 && 0 < k <= n
    ensures s in d.image
    ensures var rest := ReadChain(d, e, NextOf(d, s), k - 1, signed);
            ReadChain(d, e, s, k, signed) == Extracted(rest.ok, Chunk(d, s, false, signed) + rest.bytes)
    ensures n == 1 ==> ReadChain(d, e, NextOf(d, s), k - 1, signed) == Extracted(true, [])
  {
  }

  lemma {:induction false} ReadsAll(d: Disk, e: FileEntry, s: Word, n: Word, signed: bool)
    requires Shaped(d) && ChainSound(d, e.no, s, n) && !e.myDos && !e.dos10
    requires !signed || d.density.Single? || (n == 1 && LengthOf(d, s) < 0x80)
    ensures ReadChain(d, e, s, n, signed) == Extracted(true, Gather(d, s, n))
    decreases n
  {
    ReadStep(d, e, s, n, n, signed);
    ChunkOf(d, s, signed);
    if n > 1 {
      ReadsAll(d, e, NextOf(d, s), n - 1, signed);
    } else {
      assert Gather(d, s, n) == Payload(d, s) + [];
    }
  }

  lemma {:induction false} ReadBound(d: Disk, e: FileEntry, s: Word, n: nat, k: Word, signed: bool)
    requires Shaped(d) && ChainSound(d, e.no, s, n) && !e.myDos && !e.dos10 && k <= n
    ensures |ReadChain(d, e, s, k, signed).bytes| <= k * d.density.Room()
    decreases k
  {
    if k > 0 {
      ReadStep(d, e, s, n, k, signed);
      ChunkOf(d, s, signed);
      if n > 1 {
        ReadBound(d, e, NextOf(d, s), n - 1, k - 1, signed);
      }
      assert (k - 1) * d.density.Room() + d.density.Room() == k * d.density.Room();
    }
  }

  /** When the first sector is read as empty, at least a sector's worth is missing. */
  lemma FirstLost(d: Disk, e: FileEntry, s: Word, n: nat, k: Word)
    requires Shaped(d) && ChainSound(d, e.no, s, n) && !e.myDos && !e.dos10 && 0 < k <= n
    requires LengthOf(d, s) >= 0x80
    ensures |ReadChain(d, e, s, k, true).bytes| <= (k - 1) * d.density.Room()
  {
    ReadStep(d, e, s, n, k, true);
    ChunkOf(d, s, true);
    if n > 1 {
      ReadBound(d, e, NextOf(d, s), n - 1, k - 1, true);
    }
  }

  lemma SectorsReadOf(n: Word, density: Density)
    requires n > 0
    ensures var k := SectorsRead(n * density.Room(), density.Room());
            if n * density.Room() < 0x10000 then k == n else k < n
  {
  }

  lemma Monotone(k: int, n: int, room: nat)
    requires k <= n
    ensures k * room <= n * room
  {
  }

  /** All sectors of the file are counted, and its bytes fill all but the last. */
  lemma FileFills(d: Disk, no: nat)
    requires Sound(d) && Used(d, no)
    ensures FileSound(d, no) && Count(d, no) > 0
    ensures |Bytes(d, no)| > (Count(d, no) - 1) * d.density.Room() || (Count(d, no) == 1 && Bytes(d, no) == [])
  {
    assert FileSound(d, no);
    if Count(d, no) > 1 {
      SectorsForIff(|Bytes(d, no)|, d.density.Room(), Count(d, no) - 1);
    }
  }

  lemma OneSectorFile(d: Disk, no: nat)
    requires Sound(d) && Used(d, no)
    ensures Count(d, no) == 1 ==> |Bytes(d, no)| == LengthOf(d, First(d, no))
    ensures Count(d, no) > 1 ==> LengthOf(d, First(d, no)) == d.density.Room() && |Bytes(d, no)| > d.density.Room()
  {
    FileFills(d, no);
    var s := First(d, no);
    assert Gather(d, s, 1) == Payload(d, s) + [];
    if Count(d, no) > 1 {
      Monotone(1, Count(d, no) - 1, d.density.Room());
    }
  }

  // ---------- When extraction yields the file ----------

  /** The file has fewer than 64 KB worth of sectors, and with signed bytes its entry and its sectors can be read. */
  predicate Extractable(d: Disk, no: nat, signed: bool) {
    && SectorsFor(|Bytes(d, no)|, d.density.Room()) * d.density.Room() < 0x10000
    && Decodable(d, no, signed)
    && Readable(d.density, |Bytes(d, no)|, signed)
  }

  lemma ExtractGood(d: Disk, no: nat, e: FileEntry, signed: bool)
    requires Sound(d) && Used(d, no) && Extractable(d, no, signed)
    requires e.no == no && !e.myDos && !e.dos10 && e.first == First(d, no)
    requires e.size == Count(d, no) * d.density.Room()
    ensures Extract(d, e, signed) == Extracted(true, Bytes(d, no))
  {
    FileFills(d, no);
    OneSectorFile(d, no);
    SectorsReadOf(Count(d, no), d.density);
    ReadsAll(d, e, e.first, Count(d, no), signed);
  }

  lemma ExtractShort(d: Disk, no: nat, e: FileEntry, signed: bool)
    requires Sound(d) && Used(d, no) && Decodable(d, no, signed) && !Extractable(d, no, signed)
    requires e.no == no && !e.myDos && !e.dos10 && e.first == First(d, no)
    requires e.size == Count(d, no) * d.density.Room()
    ensures |Extract(d, e, signed).bytes| < |Bytes(d, no)|
  {
    var n, room := Count(d, no), d.density.Room();
    var k := SectorsRead(e.size, room);
    FileFills(d, no);
    OneSectorFile(d, no);
    SectorsReadOf(n, d.density);
    if k < n {
      ReadBound(d, e, e.first, n, k, signed);
      Monotone(k, n - 1, room);
    } else {
      FirstLost(d, e, e.first, n, k);
    }
  }

  lemma ExtractWrong(d: Disk, no: nat, e: FileEntry)
    requires Sound(d) && Used(d, no) && !Decodable(d, no, true)
    requires e.no == no && !e.myDos && !e.dos10 && e.first == DecodedFirst(First(d, no), true)
    requires e.size == Count(d, no) * d.density.Room()
    ensures Extract(d, e, true) != Extracted(true, Bytes(d, no))
  {
    FileFills(d, no);
    SectorsReadOf(Count(d, no), d.density);
    WrongFirst(d, no, e.first);
  }

  /** A file is extracted as it is if and only if it is short enough and its entry and its sectors can be read. */
  lemma ExtractIff(d: Disk, no: nat, signed: bool)
    requires Sound(d) && Used(d, no)
    ensures Extract(d, EntryOf(d, no, signed), signed) == Extracted(true, Bytes(d, no)) <==> Extractable(d, no, signed)
  {
    FirstInData(d, no);
    EntryOfUsed(d, no, signed);
    var e := EntryOf(d, no, signed);
    if !Decodable(d, no, signed) {
      ExtractWrong(d, no, e);
    } else if Extractable(d, no, signed) {
      ExtractGood(d, no, e, signed);
    } else {
      ExtractShort(d, no, e, signed);
    }
  }
}
