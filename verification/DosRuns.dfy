/** Runs of insertions and erasures on an Atari DOS disk: they refine runs on a plain map of files. */
module DosRuns {
  import opened SectorBitmap
  import opened DosDisk
  import opened DosFiles
  import opened DosErasing
  import opened DosReading

  // ---------- The disk as a map of files ----------

  datatype Volume = Volume(files: map<nat, File>, free: int)

  function View(d: Disk): Volume {
    Volume(Files(d), d.free)
  }

  function NextNumber(files: map<nat, File>, no: nat): (r: nat)
    requires no <= FILES
    ensures no <= r <= FILES
    ensures r < FILES ==> r !in files
    decreases FILES - no
  {
    if no == FILES || no !in files then no else NextNumber(files, no + 1)
  }

  function Stored(v: Volume, file: File, density: Density): Volume {
    var no, n := NextNumber(v.files, 0), SectorsFor(|file.bytes|, density.Room());
    if no < FILES && n <= v.free then Volume(v.files[no := file], v.free - n) else v
  }

  function Removed(v: Volume, no: nat, density: Density): Volume {
    if no in v.files then Volume(v.files - {no}, v.free + SectorsFor(|v.files[no].bytes|, density.Room())) else v
  }

  // ---------- Runs ----------

  /** Inserting a file under a name, or erasing one that the directory lists. */
  datatype Call = Insert(name: Name, bytes: seq<Byte>) | Erase(no: nat)

  function Step(d: Disk, call: Call, signed: bool): (r: Disk)
    requires Shaped(d)
    ensures Shaped(r)
  {
    match call
    case Insert(name, bytes) => Inserted(d, name, bytes).disk
    case Erase(no) => if Used(d, no) then Erased(d, EntryOf(d, no, signed)).disk else d
  }

  function Run(d: Disk, calls: seq<Call>, signed: bool): Disk
    requires Shaped(d)
    decreases |calls|
  {
    if calls == [] then d else Run(Step(d, calls[0], signed), calls[1..], signed)
  }

  function VolumeStep(v: Volume, call: Call, density: Density): Volume {
    match call
    case Insert(name, bytes) => Stored(v, File(name, bytes), density)
    case Erase(no) => Removed(v, no, density)
  }

  function VolumeRun(v: Volume, calls: seq<Call>, density: Density): Volume
    decreases |calls|
  {
    if calls == [] then v else VolumeRun(VolumeStep(v, calls[0], density), calls[1..], density)
  }

  /** Not the erasure of a file whose first sector is wrongly decoded. */
  predicate Safe(d: Disk, call: Call, signed: bool) {
    call.Erase? && Used(d, call.no) ==> Decodable(d, call.no, signed)
  }

  predicate SafeRun(d: Disk, calls: seq<Call>, signed: bool)
    requires Shaped(d)
    decreases |calls|
  {
    calls != [] ==> Safe(d, calls[0], signed) && SafeRun(Step(d, calls[0], signed), calls[1..], signed)
  }

  lemma UsedUnlessFree(d: Disk, no: nat)
    requires no < FILES && PlainFlags(d)
    ensures no in Files(d) <==> DirByte(d, no, 0) != 0 && DirByte(d, no, 0) != DELETED
  {
    assert DirByte(d, no, 0) in {0, IN_USE, DELETED};
  }

  lemma {:induction false} SameNumber(d: Disk, no: nat, files: map<nat, File>)
    requires no <= FILES && PlainFlags(d) && files == Files(d)
    ensures FreeNumber(d, no) == NextNumber(files, no)
    decreases FILES - no
  {
    if no < FILES {
      UsedUnlessFree(d, no);
      SameNumber(d, no + 1, files);
    }
  }

  /** One call keeps a sound disk sound if and only if it is safe. */
  lemma StepSoundIff(d: Disk, call: Call, signed: bool)
    requires Sound(d)
    ensures Sound(Step(d, call, signed)) <==> Safe(d, call, signed)
  {
    match call {
      case Insert(name, bytes) =>
        InsertOkIff(d, name, bytes);
        if Fits(d, bytes) {
          InsertStores(d, name, bytes);
        }
      case Erase(no) =>
        if Used(d, no) {
          EraseSoundIff(d, no, signed);
        }
    }
  }

  lemma StoredFits(d: Disk, name: Name, bytes: seq<Byte>)
    requires Sound(d)
    ensures Stored(View(d), File(name, bytes), d.density)
            == if !Fits(d, bytes) then View(d)
               else Volume(Files(d)[FreeNumber(d, 0) := File(name, bytes)],
                           d.free - SectorsFor(|bytes|, d.density.Room()))
  {
    SameNumber(d, 0, Files(d));
  }

  lemma InsertView(d: Disk, name: Name, bytes: seq<Byte>)
    requires Sound(d)
    ensures View(Inserted(d, name, bytes).disk) == Stored(View(d), File(name, bytes), d.density)
    ensures Inserted(d, name, bytes).disk.density == d.density
  {
    StoredFits(d, name, bytes);
    InsertOkIff(d, name, bytes);
    if Fits(d, bytes) {
      InsertStores(d, name, bytes);
    }
  }

  lemma EraseView(d: Disk, no: nat, signed: bool)
    requires Sound(d) && Used(d, no) && Decodable(d, no, signed)
    ensures View(Erased(d, EntryOf(d, no, signed)).disk) == Removed(View(d), no, d.density)
    ensures Erased(d, EntryOf(d, no, signed)).disk.density == d.density
  {
    FileFills(d, no);
    EraseRemoves(d, no, signed);
  }

  lemma StepView(d: Disk, call: Call, signed: bool)
    requires Sound(d) && Safe(d, call, signed)
    ensures View(Step(d, call, signed)) == VolumeStep(View(d), call, d.density)
    ensures Step(d, call, signed).density == d.density
  {
    match call {
      case Insert(name, bytes) => InsertView(d, name, bytes);
      case Erase(no) =>
        if Used(d, no) {
          EraseView(d, no, signed);
        }
    }
  }

  /** Every safe run keeps the disk sound and does to its files what the run on the map does. */
  lemma {:induction false} RunRefines(d: Disk, calls: seq<Call>, signed: bool)
    requires Sound(d) && SafeRun(d, calls, signed)
    ensures Sound(Run(d, calls, signed)) && Run(d, calls, signed).density == d.density
    ensures View(Run(d, calls, signed)) == VolumeRun(View(d), calls, d.density)
    decreases |calls|
  {
    if calls != [] {
      StepSoundIff(d, calls[0], signed);
      StepView(d, calls[0], signed);
      RunRefines(Step(d, calls[0], signed), calls[1..], signed);
    }
  }

  /** With unsigned bytes every run is safe. */
  lemma {:induction false} UnsignedRunSafe(d: Disk, calls: seq<Call>)
    requires Shaped(d)
    ensures SafeRun(d, calls, false)
    decreases |calls|
  {
    if calls != [] {
      UnsignedRunSafe(Step(d, calls[0], false), calls[1..]);
    }
  }

  // ---------- Inserting and erasing undo each other ----------

  lemma InsertedChain(d: Disk, name: Name, bytes: seq<Byte>, mid: Disk, no: nat)
    requires Sound(d) && Fits(d, bytes) && no == FreeNumber(d, 0) && mid == Inserted(d, name, bytes).disk
    ensures Used(mid, no) && Count(mid, no) == SectorsFor(|bytes|, d.density.Room())
    ensures First(mid, no) == FoundFree(d.bitmap, 0)
    ensures Free(mid.bitmap) + (set s | s in ChainOf(mid, no)) == Free(d.bitmap)
  {
    var m, first, n, e := InsertAdds(d, name, bytes);
    AddedFileSound(d, m, mid, no, first, n, bytes, e);
    FoundFreeMeaning(d.bitmap, 0);
    assert first in Follow(m, first, n);
  }

  lemma AddedAndRemoved(files: map<nat, File>, no: nat, file: File)
    requires no !in files
    ensures files[no := file] - {no} == files
  {
  }

  lemma ErasedAgain(mid: Disk, no: nat, signed: bool, v: Volume, free: set<nat>, file: File, r: Disk)
    requires Sound(mid) && Decodable(mid, no, signed) && no !in v.files && Used(mid, no)
    requires View(mid) == Volume(v.files[no := file], v.free - Count(mid, no))
    requires Free(mid.bitmap) + (set s | s in ChainOf(mid, no)) == free
    requires r == Erased(mid, EntryOf(mid, no, signed)).disk
    ensures View(r) == v && Free(r.bitmap) == free
  {
    EraseRemoves(mid, no, signed);
    AddedAndRemoved(v.files, no, file);
  }

  /** Erasing a file that was just inserted gives back the files, the free sectors and their number. */
  lemma InsertThenErase(d: Disk, name: Name, bytes: seq<Byte>, signed: bool, mid: Disk, no: nat)
    requires Sound(d) && Fits(d, bytes) && no == FreeNumber(d, 0) && mid == Inserted(d, name, bytes).disk
    requires Decodable(mid, no, signed)
    ensures var r := Erased(mid, EntryOf(mid, no, signed)).disk;
            View(r) == View(d) && Free(r.bitmap) == Free(d.bitmap)
  {
    InsertStores(d, name, bytes);
    InsertedChain(d, name, bytes, mid, no);
    ErasedAgain(mid, no, signed, View(d), Free(d.bitmap), File(name, bytes),
                Erased(mid, EntryOf(mid, no, signed)).disk);
  }

  lemma InsertedFile(d: Disk, name: Name, bytes: seq<Byte>, mid: Disk, no: nat)
    requires Sound(d) && Fits(d, bytes) && no == FreeNumber(d, 0) && mid == Inserted(d, name, bytes).disk
    ensures Sound(mid) && mid.density == d.density && Used(mid, no)
    ensures FileAt(mid, no) == File(name, bytes)
  {
    InsertStores(d, name, bytes);
    assert no in Files(mid) && Files(mid)[no] == File(name, bytes);
  }

  /** A file that was inserted is extracted again exactly if it is short enough and can be read back. */
  lemma InsertThenExtractIff(d: Disk, name: Name, bytes: seq<Byte>, signed: bool, mid: Disk, no: nat)
    requires Sound(d) && Fits(d, bytes) && no == FreeNumber(d, 0) && mid == Inserted(d, name, bytes).disk
    ensures Used(mid, no)
    ensures Extract(mid, EntryOf(mid, no, signed), signed) == Extracted(true, bytes)
            <==> SectorsFor(|bytes|, d.density.Room()) * d.density.Room() < 0x10000
                 && (!signed || (FoundFree(d.bitmap, 0) % 0x100 < 0x80 && (d.density.Single? || |bytes| < 0x80)))
  {
    InsertedFile(d, name, bytes, mid, no);
    InsertedChain(d, name, bytes, mid, no);
    ExtractIff(mid, no, signed);
  }

  // ---------- No sector gets lost ----------

  /** The sectors of the files with numbers below k. */
  function SectorsUsed(files: map<nat, File>, density: Density, k: nat): nat {
    if k == 0 then 0
    else SectorsUsed(files, density, k - 1)
         + if k - 1 in files then SectorsFor(|files[k - 1].bytes|, density.Room()) else 0
  }

  lemma {:induction false} SectorsUsedWith(
    files: map<nat, File>, no: nat, file: File, density: Density, k: nat)
    requires no !in files
    ensures SectorsUsed(files[no := file], density, k)
            == SectorsUsed(files, density, k) + if no < k then SectorsFor(|file.bytes|, density.Room()) else 0
  {
    if k > 0 {
      SectorsUsedWith(files, no, file, density, k - 1);
    }
  }

  lemma StepConserves(v: Volume, call: Call, density: Density, r: Volume)
    requires (forall no | no in v.files :: no < FILES) && r == VolumeStep(v, call, density)
    ensures forall no | no in r.files :: no < FILES
    ensures r.free + SectorsUsed(r.files, density, FILES) == v.free + SectorsUsed(v.files, density, FILES)
  {
    match call {
      case Insert(name, bytes) =>
        var no := NextNumber(v.files, 0);
        if no < FILES {
          SectorsUsedWith(v.files, no, File(name, bytes), density, FILES);
        }
      case Erase(no) =>
        if no in v.files {
          var rest := v.files - {no};
          SectorsUsedWith(rest, no, v.files[no], density, FILES);
          assert rest[no := v.files[no]] == v.files;
        }
    }
  }

  lemma {:induction false} VolumeRunConserves(v: Volume, calls: seq<Call>, density: Density)
    requires forall no | no in v.files :: no < FILES
    ensures var r := VolumeRun(v, calls, density);
            r.free + SectorsUsed(r.files, density, FILES) == v.free + SectorsUsed(v.files, density, FILES)
    decreases |calls|
  {
    if calls != [] {
      StepConserves(v, calls[0], density, VolumeStep(v, calls[0], density));
      VolumeRunConserves(VolumeStep(v, calls[0], density), calls[1..], density);
    }
  }

  // ---------- From an empty disk ----------

  const CAPACITY := 707

  function BlankBitmap(): Bitmap {
    seq(90, i requires 0 <= i < 90 =>
      if i == 0 then 0x0F as bv8 else if i == 45 then 0 else if i == 46 then 0x7F else 0xFF)
  }

  predicate OnDisk(s: nat) {
    1 <= s <= SECTORS
  }

  function BlankImage(density: Density): Image {
    map s: nat | s <= SECTORS && OnDisk(s) :: seq(density.BytesPerSector(), _ => 0)
  }

  /** A disk without files. */
  function Blank(density: Density): Disk {
    WithBitmap(Disk(density, BlankImage(density), BlankBitmap(), CAPACITY))
  }

  lemma BlankBits(k: nat)
    requires k < 8
    ensures Bit(0xFF, k) && !Bit(0, k) && (Bit(0x0F, k) <==> k >= 4) && (Bit(0x7F, k) <==> k >= 1)
  {
  }

  lemma BlankFree(s: nat)
    requires FIRST_SECTOR <= s < SECTORS
    ensures IsFree(BlankBitmap(), s) <==> InData(s)
  {
    BlankBits(s % 8);
  }

  lemma {:induction false} RangeSize(r: set<nat>, lo: nat, hi: nat)
    requires lo <= hi && forall s :: s in r <==> lo <= s < hi
    ensures |r| == hi - lo
  {
    if lo < hi {
      RangeSize(r - {hi - 1}, lo, hi - 1);
    }
  }

  lemma BlankFreeSize()
    ensures AllFree(Free(BlankBitmap()))
  {
    forall s: nat | FIRST_SECTOR <= s < SECTORS ensures IsFree(BlankBitmap(), s) <==> InData(s) {
      BlankFree(s);
    }
    var free := Free(BlankBitmap());
    var low, high := set s | s in free && s < VTOC, set s | s in free && s > VTOC;
    RangeSize(low, FIRST_SECTOR, VTOC);
    RangeSize(high, ROOT + 8, SECTORS);
    assert free == low + high;
  }

  /** A sound disk without files, all of whose data sectors are free. */
  ghost predicate Empty(d: Disk, density: Density) {
    Sound(d) && d.density == density && View(d) == Volume(map[], CAPACITY) && AllFree(Free(d.bitmap))
  }

  ghost predicate AllFree(free: set<nat>) {
    |free| == CAPACITY && forall s :: s in free <==> InData(s)
  }

  lemma BlankEmpty(density: Density)
    ensures Empty(Blank(density), density)
  {
    var d := Disk(density, BlankImage(density), BlankBitmap(), CAPACITY);
    BlankFreeSize();
    OpenedAfterWriting(d);
    assert forall no: nat | no < FILES :: DirByte(Blank(density), no, 0) == 0;
    assert Files(Blank(density)) == map[];
  }

  /** On every safe run from an empty disk the free sectors and those of the files always make up the whole disk. */
  lemma CapacityConserved(density: Density, calls: seq<Call>, signed: bool)
    requires SafeRun(Blank(density), calls, signed)
    ensures var r := Run(Blank(density), calls, signed);
            Sound(r) && r.free + SectorsUsed(Files(r), density, FILES) == CAPACITY
  {
    BlankEmpty(density);
    RunRefines(Blank(density), calls, signed);
    VolumeRunConserves(View(Blank(density)), calls, density);
    NoSectorsUsed(map[], density, FILES);
  }

  lemma {:induction false} NoSectorsUsed(files: map<nat, File>, density: Density, k: nat)
    requires files == map[]
    ensures SectorsUsed(files, density, k) == 0
  {
    if k > 0 {
      NoSectorsUsed(files, density, k - 1);
    }
  }
}
