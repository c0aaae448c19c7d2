/** Files on an Atari DOS disk that do not come back, or cannot be erased, and which sectors a file gets. */
module DosExamples {
  import opened SectorBitmap
  import opened DosDisk
  import opened DosFiles
  import opened DosErasing
  import opened DosReading
  import opened DosRuns

  lemma FileAt128(d: Disk, no: nat, e: FileEntry)
    requires Sound(d) && Used(d, no) && First(d, no) == 128 && e == EntryOf(d, no, true)
    ensures Erased(d, e).outcome == OutOfBounds && Extract(d, e, true).bytes == []
  {
    EntryOfUsed(d, no, true);
    WrongRelease(d, e, Erased(d, e));
    assert e.first !in d.image;
  }

  /** When the lowest free sector is 128, a file inserted next can be neither read nor erased with signed bytes. */
  lemma InsertedAt128Example(d: Disk, name: Name, bytes: seq<Byte>, mid: Disk, no: nat, e: FileEntry)
    requires Sound(d) && Fits(d, bytes) && no == FreeNumber(d, 0) && mid == Inserted(d, name, bytes).disk
    requires 128 in Free(d.bitmap) && forall s | s in Free(d.bitmap) :: 128 <= s
    requires e == EntryOf(mid, no, true)
    ensures Files(mid) == Files(d)[no := File(name, bytes)]
    ensures Erased(mid, e).outcome == OutOfBounds && Extract(mid, e, true).bytes == []
  {
    FoundFreeMeaning(d.bitmap, 0);
    InsertStores(d, name, bytes);
    InsertedChain(d, name, bytes, mid, no);
    FileAt128(mid, no, e);
  }

  // ---------- On an empty disk ----------

  /** All of a that is not in b lies below b. */
  ghost predicate UpperPart(a: set<nat>, b: set<nat>) {
    b <= a && forall x, y :: x in b && y in a - b ==> y < x
  }

  lemma UpperPartStep(a: set<nat>, least: nat, b: set<nat>)
    requires least in a && (forall x | x in a :: least <= x) && UpperPart(a - {least}, b)
    ensures UpperPart(a, b)
  {
    forall x, y | x in b && y in a - b ensures y < x {
      assert y == least || y in a - {least} - b;
    }
  }

  lemma LowestStep(a: set<nat>, s: nat, next: nat, b: set<nat>)
    requires next in a && forall x | x in a :: s < x && (x < next ==> x < s + 1)
    ensures forall x | x in a - {next} :: next < x
    ensures UpperPart(a - {next}, b) ==> UpperPart(a, b)
  {
    if UpperPart(a - {next}, b) {
      UpperPartStep(a, next, b);
    }
  }

  lemma NextOfChain(d: Disk, no: nat, s: nat, bytes: seq<Byte>, w: Writing) returns (mid: Disk, next: nat)
    requires Ready(d) && no < FILES && InData(s) && |bytes| > d.density.Room() && d.free > 0
    requires w == WriteChain(d, no, s, bytes)
    ensures Ready(mid) && mid.density == d.density && mid.free == d.free - 1 && InData(next)
    ensures next in Free(d.bitmap) && Free(mid.bitmap) == Free(d.bitmap) - {next}
    ensures w == WriteChain(mid, no, next, bytes[d.density.Room()..]) && next == FoundFree(d.bitmap, s + 1)
  {
    mid, next := WriteChainStep(d, no, s, bytes, w);
  }

  /** A file takes the lowest free sectors, if its first sector is below them. */
  lemma {:induction false} LowestTaken(d: Disk, no: nat, s: nat, bytes: seq<Byte>, w: Writing, n: nat)
    requires Ready(d) && no < FILES && InData(s)
    requires n == SectorsFor(|bytes|, d.density.Room()) <= d.free + 1 && w == WriteChain(d, no, s, bytes)
    requires forall x | x in Free(d.bitmap) :: s < x
    ensures UpperPart(Free(d.bitmap), Free(w.disk.bitmap))
    decreases n
  {
    if n > 1 {
      var mid, next := NextOfChain(d, no, s, bytes, w);
      FoundFreeMeaning(d.bitmap, s + 1);
      LowestStep(Free(d.bitmap), s, next, Free(w.disk.bitmap));
      LowestTaken(mid, no, next, bytes[d.density.Room()..], w, n - 1);
    } else {
      NothingTaken(d, no, s, bytes);
    }
  }

  lemma NothingTaken(d: Disk, no: nat, s: nat, bytes: seq<Byte>)
    requires Shaped(d) && no < FILES && |bytes| <= d.density.Room()
    ensures WriteChain(d, no, s, bytes).disk.bitmap == d.bitmap
  {
  }

  lemma InsertTakesLowest(d: Disk, name: Name, bytes: seq<Byte>, mid: Disk)
    requires Sound(d) && Fits(d, bytes) && mid == Inserted(d, name, bytes).disk
    ensures UpperPart(Free(d.bitmap), Free(mid.bitmap))
  {
    var no, first := FreeNumber(d, 0), FoundFree(d.bitmap, 0);
    FoundFreeMeaning(d.bitmap, 0);
    SectorsForIff(|bytes|, d.density.Room(), d.free);
    InsertOkIff(d, name, bytes);
    var w := WriteChain(Allocate(d, first), no, first, bytes);
    assert mid.bitmap == w.disk.bitmap;
    ChainTakesLowest(d, no, first, bytes, w);
  }

  lemma ChainTakesLowest(d: Disk, no: nat, first: nat, bytes: seq<Byte>, w: Writing)
    requires Ready(d) && no < FILES && first in Free(d.bitmap) && forall x | x in Free(d.bitmap) :: first <= x
    requires SectorsFor(|bytes|, d.density.Room()) <= d.free && w == WriteChain(Allocate(d, first), no, first, bytes)
    ensures UpperPart(Free(d.bitmap), Free(w.disk.bitmap))
  {
    AllocateReady(d, first);
    LowestStep(Free(d.bitmap), 0, first, Free(w.disk.bitmap));
    LowestTaken(Allocate(d, first), no, first, bytes, w, SectorsFor(|bytes|, d.density.Room()));
  }

  lemma SameSize(a: set<nat>, b: set<nat>)
    requires a <= b && |a| == |b|
    ensures a == b
  {
    assert b == a + (b - a);
  }

  /** The upper part of the data sectors without 124 of them begins at 128. */
  lemma UpperPartFrom128(a: set<nat>, b: set<nat>)
    requires AllFree(a) && UpperPart(a, b) && |b| == CAPACITY - 124
    ensures 128 in b && forall x | x in b :: 128 <= x
  {
    var gone, low := a - b, set s | s in a && s < 128;
    RangeSize(low, FIRST_SECTOR, 128);
    assert a == b + gone;
    if forall x | x in b :: 128 <= x {
      SameSize(low, gone);
    } else {
      SameSize(gone, low);
    }
    assert InData(128) && b == a - low;
  }

  lemma FitsEmpty(d: Disk, density: Density, bytes: seq<Byte>)
    requires Empty(d, density) && |bytes| <= CAPACITY * density.Room()
    ensures Fits(d, bytes) && FreeNumber(d, 0) == 0
  {
    SameNumber(d, 0, Files(d));
    SectorsForIff(|bytes|, density.Room(), CAPACITY);
  }

  lemma FullSectors(k: nat)
    requires k > 1
    ensures SectorsFor(k * 125, 125) == k
  {
    SectorsForIff(k * 125, 125, k);
    SectorsForIff(k * 125, 125, k - 1);
  }

  lemma NumberAfterFirst(d: Disk, file: File)
    requires Sound(d) && Files(d) == map[0 := file]
    ensures FreeNumber(d, 0) == 1
  {
    SameNumber(d, 0, Files(d));
    assert NextNumber(Files(d), 0) == NextNumber(Files(d), 1);
  }

  lemma FirstOfTwo(name: Name, bytes: seq<Byte>, d: Disk, mid: Disk)
    requires Empty(d, Single) && |bytes| == 124 * 125 && mid == Inserted(d, name, bytes).disk
    ensures Sound(mid) && mid.density == Single && FreeNumber(mid, 0) == 1 && mid.free == CAPACITY - 124
    ensures 128 in Free(mid.bitmap) && forall x | x in Free(mid.bitmap) :: 128 <= x
  {
    FullSectors(124);
    FitsEmpty(d, Single, bytes);
    InsertStores(d, name, bytes);
    NumberAfterFirst(mid, File(name, bytes));
    InsertTakesLowest(d, name, bytes, mid);
    UpperPartFrom128(Free(d.bitmap), Free(mid.bitmap));
  }

  lemma ShortFits(d: Disk, bytes: seq<Byte>)
    requires FreeNumber(d, 0) < FILES && d.free > 0 && |bytes| <= d.density.Room()
    ensures Fits(d, bytes)
  {
  }

  /** Two files on an empty disk, the first of 124 sectors: with signed bytes the second cannot be read or erased. */
  lemma TwoFilesExample(
    name: Name, first: seq<Byte>, second: seq<Byte>, d: Disk, mid: Disk, r: Disk, e: FileEntry)
    requires Empty(d, Single) && |first| == 124 * 125 && |second| <= 125
    requires mid == Inserted(d, name, first).disk && r == Inserted(mid, name, second).disk
    requires e == EntryOf(r, 1, true)
    ensures Files(r) == Files(mid)[1 := File(name, second)]
    ensures Erased(r, e).outcome == OutOfBounds && Extract(r, e, true).bytes == []
  {
    FirstOfTwo(name, first, d, mid);
    ShortFits(mid, second);
    InsertedAt128Example(mid, name, second, r, 1, e);
  }

  /** A file of 65625 bytes, 525 sectors, does not come back from an empty disk on any platform. */
  lemma LongFileExample(name: Name, bytes: seq<Byte>, signed: bool, d: Disk, r: Disk)
    requires Empty(d, Single) && |bytes| == 525 * 125 && r == Inserted(d, name, bytes).disk
    ensures Used(r, 0) && Bytes(r, 0) == bytes
    ensures Extract(r, EntryOf(r, 0, signed), signed) != Extracted(true, bytes)
  {
    FullSectors(525);
    FitsEmpty(d, Single, bytes);
    InsertedFile(d, name, bytes, r, 0);
    InsertThenExtractIff(d, name, bytes, signed, r, 0);
  }

  /** On double density, with signed bytes, neither does a file of 128 bytes. */
  lemma DoubleDensityExample(name: Name, bytes: seq<Byte>, d: Disk, r: Disk)
    requires Empty(d, Double) && |bytes| == 128 && r == Inserted(d, name, bytes).disk
    ensures Used(r, 0) && Bytes(r, 0) == bytes
    ensures Extract(r, EntryOf(r, 0, true), true) != Extracted(true, bytes)
  {
    FitsEmpty(d, Double, bytes);
    InsertedFile(d, name, bytes, r, 0);
    InsertThenExtractIff(d, name, bytes, true, r, 0);
  }
}
