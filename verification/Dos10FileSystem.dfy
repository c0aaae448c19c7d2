/** The file system object of a disk image with its root directory: each method is proved against `DosFiles`. */
module Dos10FileSystem {
  import opened SectorBitmap
  import opened DosDisk
  import opened DosFiles
  import opened DosErasing
  import opened DosReading
  import opened DosRuns
  import opened DosListing

  lemma FlagAt(d: Disk, k: nat, i: nat)
    requires Shaped(d) && k < 8 && i < 8
    ensures DirByte(d, k * 8 + i, 0) == d.image[ROOT + k][i * 16]
  {
    assert (k * 8 + i) / 8 == k && (k * 8 + i) % 8 == i;
  }

  lemma WriteChainUnfold(d: Disk, no: nat, s: nat, bytes: seq<Byte>, size: nat, next: nat, mid: Disk)
    requires Shaped(d) && no < FILES
    requires size == if |bytes| < d.density.Room() then |bytes| else d.density.Room()
    requires next == if size == |bytes| then 0 else FoundFree(d.bitmap, s + 1)
    requires mid == if size == |bytes| then d else Allocate(d, next)
    ensures WriteChain(d, no, s, bytes)
            == if s !in mid.image then Writing(false, mid)
               else
                 var r := Put(mid, s, Packed(d.density.Room(), bytes[..size], no, next));
                 if size == |bytes| then Writing(true, r) else WriteChain(r, no, next, bytes[size..])
  {
  }

  /** What has been read, followed by what remains to be read. */
  function Behind(target: seq<Byte>, rest: Extracted): Extracted {
    Extracted(rest.ok, target + rest.bytes)
  }

  lemma ReadUnfold(d: Disk, e: FileEntry, s: Word, n: Word, signed: bool, target: seq<Byte>)
    requires n > 0 && s != 0
    ensures Behind(target, ReadChain(d, e, s, n, signed))
            == if s !in d.image || (!e.myDos && OwnerOf(d, s) != e.no) then Extracted(false, target)
               else Behind(target + Chunk(d, s, e.dos10, signed),
                           ReadChain(d, e, LinkOf(d, s, e.myDos), n - 1, signed))
  {
  }

  lemma ReleaseUnfold(d: Disk, e: FileEntry, s: Word, n: Word)
    requires n > 0 && s != 0
    ensures ReleaseChain(d, e, s, n)
            == if s >= SECTORS then Erasing(OutOfBounds, d)
               else
                 var r := Release(d, s);
                 if s !in d.image || (!e.myDos && OwnerOf(r, s) != e.no) then Erasing(Failed, r)
                 else ReleaseChain(r, e, LinkOf(r, s, e.myDos), n - 1)
  {
  }

  class Dos10FileSystem {
    const density: Density
    /** Whether `char` is a signed type. */
    const signedChars: bool
    var image: Image
    var bitmap: Bitmap
    var freeSectors: Word

    function State(): Disk
      reads this
    {
      Disk(density, image, bitmap, freeSectors)
    }

    ghost predicate Valid()
      reads this
    {
      Shaped(State())
    }

    constructor (density: Density, image: Image, signedChars: bool)
      requires VTOC in image && |image[VTOC]| >= 100
      ensures State() == Opened(density, image) && this.signedChars == signedChars
    {
      this.density := density;
      this.signedChars := signedChars;
      this.image := image;
      var vtoc := image[VTOC];
      bitmap := seq(90, i requires 0 <= i < 90 => vtoc[10..100][i] as bv8);
      var low: int, high: int := vtoc[3], vtoc[4];
      freeSectors := low + high * 256;
    }

    // ---------- Sectors ----------

    method FindFreeSector(from: nat) returns (found: nat)
      ensures found == FoundFree(bitmap, from)
      decreases from > 0
    {
      var start := if from < FIRST_SECTOR then FIRST_SECTOR else from;
      var sector := start;
      while sector < SECTORS
        invariant start <= sector && FirstFree(bitmap, sector) == FirstFree(bitmap, start)
      {
        if IsFree(bitmap, sector) {
          return sector;
        }
        sector := sector + 1;
      }
      if from == 0 {
        return 0;
      }
      found := FindFreeSector(0);
    }

    method AllocateSector(sector: nat)
      requires sector < SECTORS
      modifies this`bitmap, this`freeSectors
      ensures State() == Allocate(old(State()), sector)
    {
      bitmap := bitmap[sector / 8 := bitmap[sector / 8] & !Mask(sector % 8)];
      freeSectors := (freeSectors + 0xFFFF) % 0x10000;
    }

    method FreeSector(sector: nat)
      requires sector < SECTORS
      modifies this`bitmap, this`freeSectors
      ensures State() == Release(old(State()), sector)
    {
      bitmap := bitmap[sector / 8 := bitmap[sector / 8] | Mask(sector % 8)];
      freeSectors := (freeSectors + 1) % 0x10000;
    }

    method WriteSector(sector: nat, data: Sector) returns (ok: bool)
      modifies this`image
      ensures ok <==> sector in old(image)
      ensures image == if ok then old(image)[sector := data] else old(image)
    {
      ok := sector in image;
      if ok {
        image := image[sector := data];
      }
    }

    /** The body of the loops of GetEntries: adds entry `no` to the list, or ends it. */
    method ListEntry(sector: nat, i: nat, no: nat, list: seq<FileEntry>) returns (end: bool, r: seq<FileEntry>)
      requires Valid() && ROOT <= sector < ROOT + 8 && i < 8 && no == (sector - ROOT) * 8 + i
      ensures list + Listing(State(), no, signedChars) == r + if end then [] else Listing(State(), no + 1, signedChars)
    {
      FlagAt(State(), sector - ROOT, i);
      ListingStep(State(), no, signedChars, list);
      var f := image[sector][i * 16];
      end, r := f == 0, list;
      if !end && !Skipped(f) {
        r := r + [EntryOf(State(), no, signedChars)];
      }
    }

    method GetEntries() returns (list: seq<FileEntry>)
      requires Valid()
      ensures list == Listing(State(), 0, signedChars)
    {
      var no: nat := 0;
      ghost var listing := Listing(State(), 0, signedChars);
      list := [];
      for s := ROOT to ROOT + 8
        invariant no == (s - ROOT) * 8 && listing == list + Listing(State(), no, signedChars)
      {
        for e := 0 to 8
          invariant no == (s - ROOT) * 8 + e && listing == list + Listing(State(), no, signedChars)
        {
          var end;
          end, list := ListEntry(s, e, no, list);
          if end {
            return;
          }
          no := no + 1;
        }
      }
    }

    /** The body of the loops of FindFreeFileNo. */
    method IsUnused(sector: nat, i: nat, no: nat) returns (unused: bool)
      requires Valid() && ROOT <= sector < ROOT + 8 && i < 8 && no == (sector - ROOT) * 8 + i
      ensures FreeNumber(State(), no) == if unused then no else FreeNumber(State(), no + 1)
    {
      FlagAt(State(), sector - ROOT, i);
      var f := image[sector][i * 16];
      unused := f == 0x80 || f == 0x00;
    }

    /** The least number of a directory entry that is empty or deleted, or -1. */
    method FindFreeFileNo() returns (no: int)
      requires Valid()
      ensures no == if FreeNumber(State(), 0) == FILES then -1 else FreeNumber(State(), 0)
    {
      ghost var found := FreeNumber(State(), 0);
      no := 0;
      for sector := ROOT to ROOT + 8
        invariant no == (sector - ROOT) * 8 && found == FreeNumber(State(), no)
      {
        for i := 0 to 8
          invariant no == (sector - ROOT) * 8 + i && found == FreeNumber(State(), no)
        {
          var unused := IsUnused(sector, i, no);
          if unused {
            return no;
          }
          no := no + 1;
        }
      }
      no := -1;
    }

    method WriteEntry(no: nat, at: nat, bytes: seq<Byte>)
      requires Valid() && no < FILES && at + |bytes| <= 16
      modifies this`image
      ensures Valid() && State() == WithEntry(old(State()), no, at, bytes)
    {
      var dirsec, start := ROOT + no / 8, no % 8 * 16 + at;
      var data := image[dirsec];
      var _ := WriteSector(dirsec, data[..start] + bytes + data[start + |bytes|..]);
    }

    method WriteBitmap()
      requires Valid()
      modifies this`image
      ensures Valid() && State() == WithBitmap(old(State()))
    {
      var data := image[VTOC];
      data := data[..10] + BitmapBytes(bitmap) + data[100..];
      data := data[3 := freeSectors % 256][4 := freeSectors / 256];
      assert data == Spliced(Spliced(image[VTOC], 10, BitmapBytes(bitmap)), 3, [freeSectors % 256, freeSectors / 256]);
      var _ := WriteSector(VTOC, data);
    }

    // ---------- Files ----------

    /** The body of the loop of Insert: writes one sector, and allocates the next unless it is the last one. */
    method WriteData(no: nat, sector: nat, data: seq<Byte>, atEnd: bool) returns (ok: bool, newSector: nat)
      requires Valid() && no < FILES && |data| <= density.Room()
      modifies this`image, this`bitmap, this`freeSectors
      ensures Valid() && newSector == if atEnd then 0 else FoundFree(old(bitmap), sector + 1)
      ensures var mid := if atEnd then old(State()) else Allocate(old(State()), newSector);
              && (ok <==> sector in mid.image)
              && State() == if ok then Put(mid, sector, Packed(density.Room(), data, no, newSector)) else mid
    {
      newSector := 0;
      if !atEnd {
        newSector := FindFreeSector(sector + 1);
        AllocateSector(newSector);
      }
      ok := WriteSector(sector, Packed(density.Room(), data, no, newSector));
    }

    /** The same, said of the whole rest of the file. */
    method WriteNext(no: nat, sector: nat, rest: seq<Byte>, size: nat) returns (ok: bool, newSector: nat)
      requires Valid() && no < FILES && size == if |rest| < density.Room() then |rest| else density.Room()
      modifies this`image, this`bitmap, this`freeSectors
      ensures Valid()
      ensures WriteChain(old(State()), no, sector, rest)
              == if !ok || size == |rest| then Writing(ok, State())
                 else WriteChain(State(), no, newSector, rest[size..])
    {
      ghost var d, next := State(), if size == |rest| then 0 else FoundFree(bitmap, sector + 1);
      WriteChainUnfold(d, no, sector, rest, size, next, if size == |rest| then d else Allocate(d, next));
      ok, newSector := WriteData(no, sector, rest[..size], size == |rest|);
    }

    /** The loop of Insert: writes the file sector by sector from an allocated one on. */
    method WriteFile(no: nat, first: nat, bytes: seq<Byte>) returns (ok: bool, sectorCount: nat)
      requires Valid() && no < FILES
      modifies this`image, this`bitmap, this`freeSectors
      ensures Valid() && Writing(ok, State()) == WriteChain(old(State()), no, first, bytes)
      ensures ok ==> sectorCount == SectorsFor(|bytes|, density.Room())
    {
      var sector: nat, rest, atEnd, room := first, bytes, false, density.Room();
      ghost var written := WriteChain(State(), no, first, bytes);
      ok, sectorCount := true, 0;
      while !atEnd
        invariant Valid() && ok
        invariant written == if atEnd then Writing(true, State()) else WriteChain(State(), no, sector, rest)
        invariant SectorsFor(|bytes|, room) == sectorCount + if atEnd then 0 else SectorsFor(|rest|, room)
        decreases !atEnd, |rest|
      {
        sectorCount := sectorCount + 1;
        var size := if |rest| < room then |rest| else room;
        atEnd := size == |rest|;
        ok, sector := WriteNext(no, sector, rest, size);
        if !ok {
          return;
        }
        rest := rest[size..];
      }
    }

    method RecordFile(no: nat, sectorCount: nat, firstSector: nat, name: Name)
      requires Valid() && no < FILES && firstSector < 0x10000
      modifies this`image
      ensures Valid() && State() == WithBitmap(WithEntry(old(State()), no, 0, Entry(sectorCount, firstSector, name)))
    {
      var head := [0x42, sectorCount % 256, sectorCount / 256 % 256, firstSector % 256, firstSector / 256];
      WriteEntry(no, 0, head + name);
      WriteBitmap();
    }

    /** Inserts a file under a name of eleven characters. */
    method Insert(name: Name, bytes: seq<Byte>) returns (ok: bool)
      requires Valid()
      modifies this`image, this`bitmap, this`freeSectors
      ensures Valid() && Writing(ok, State()) == Inserted(old(State()), name, bytes)
    {
      var no := FindFreeFileNo();
      if no < 0 || |bytes| > freeSectors * density.Room() {
        return false;
      }
      var firstSector := FindFreeSector(0);
      if firstSector == 0 {
        return false;
      }
      AllocateSector(firstSector);
      var sectorCount;
      ok, sectorCount := WriteFile(no, firstSector, bytes);
      if ok {
        RecordFile(no, sectorCount, firstSector, name);
      }
    }

    /** Copies a file to a target, sector by sector, and says whether that succeeded. */
    method ExtractTo(e: FileEntry) returns (ok: bool, target: seq<Byte>)
      ensures Extracted(ok, target) == Extract(State(), e, signedChars)
    {
      var sector: Word, n: Word := e.first, SectorsRead(e.size, density.Room());
      ghost var extracted := ReadChain(State(), e, sector, n, signedChars);
      ok, target := true, [];
      while n > 0 && sector != 0
        invariant ok && extracted == Behind(target, ReadChain(State(), e, sector, n, signedChars))
        decreases n
      {
        ReadUnfold(State(), e, sector, n, signedChars, target);
        if sector !in image || (!e.myDos && OwnerOf(State(), sector) != e.no) {
          return false, target;
        }
        target := target + Chunk(State(), sector, e.dos10, signedChars);
        sector, n := LinkOf(State(), sector, e.myDos), n - 1;
      }
    }

    /** The loop of Erase: frees the sectors that the entry leads to. */
    method ReleaseFile(e: FileEntry, count: Word) returns (outcome: Outcome)
      requires Valid()
      modifies this`bitmap, this`freeSectors
      ensures Valid() && Erasing(outcome, State()) == ReleaseChain(old(State()), e, e.first, count)
    {
      var sector: Word, n: Word := e.first, count;
      while n > 0 && sector != 0
        invariant Valid()
        invariant ReleaseChain(State(), e, sector, n) == ReleaseChain(old(State()), e, e.first, count)
        decreases n
      {
        ReleaseUnfold(State(), e, sector, n);
        if sector >= SECTORS {
          return OutOfBounds;
        }
        ghost var d := State();
        FreeSector(sector);
        assert State() == Release(d, sector);
        if sector !in image || (!e.myDos && OwnerOf(State(), sector) != e.no) {
          return Failed;
        }
        sector, n := LinkOf(State(), sector, e.myDos), n - 1;
      }
      outcome := Done;
    }

    /** Marks the entry as deleted and frees its sectors. */
    method Erase(e: FileEntry) returns (outcome: Outcome)
      requires Valid() && e.no < FILES
      modifies this`image, this`bitmap, this`freeSectors
      ensures Valid() && Erasing(outcome, State()) == Erased(old(State()), e)
    {
      WriteEntry(e.no, 0, [0x80]);
      outcome := ReleaseFile(e, SectorsIn(e.size, density.Room()));
      if outcome == Done {
        WriteBitmap();
      }
    }
  }
}
