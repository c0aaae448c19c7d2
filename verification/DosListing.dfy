/** The listing of the directory of an Atari DOS disk: it shows exactly the files, after every safe run. */
module DosListing {
  import opened SectorBitmap
  import opened DosDisk
  import opened DosFiles
  import opened DosErasing
  import opened DosRuns

  /** The flag of a deleted entry, or of one opened for writing. */
  predicate Skipped(flag: Byte) {
    var f: int := flag;
    (f % 2 == 1 && f / 0x40 % 2 == 1) || f >= 0x80
  }

  /** What the directory lists from entry `no` on: an empty entry ends it, deleted and half-written ones are skipped. */
  function Listing(d: Disk, no: nat, signed: bool): seq<FileEntry>
    requires no <= FILES
    decreases FILES - no
  {
    if no == FILES || DirByte(d, no, 0) == 0 then []
    else
      (if Skipped(DirByte(d, no, 0)) then [] else [EntryOf(d, no, signed)]) + Listing(d, no + 1, signed)
  }

  /** No entry stands behind an empty one. */
  ghost predicate Compact(d: Disk) {
    forall i: nat, j: nat :: i < j < FILES && DirByte(d, i, 0) == 0 ==> DirByte(d, j, 0) == 0
  }

  lemma {:induction false} NothingBehind(d: Disk, no: nat)
    requires Compact(d) && no < FILES && DirByte(d, no, 0) == 0
    ensures forall f: nat :: no <= f ==> !Used(d, f)
  {
  }

  lemma InOrder<T>(a: seq<T>, x: T, b: seq<T>)
    ensures a + ([x] + b) == a + [x] + b
  {
  }

  lemma ListingStep(d: Disk, no: nat, signed: bool, list: seq<FileEntry>)
    requires no < FILES
    ensures list + Listing(d, no, signed)
            == if DirByte(d, no, 0) == 0 then list
               else if Skipped(DirByte(d, no, 0)) then list + Listing(d, no + 1, signed)
               else list + [EntryOf(d, no, signed)] + Listing(d, no + 1, signed)
  {
    var rest := Listing(d, no + 1, signed);
    assert [] + rest == rest && list + [] == list;
    InOrder(list, EntryOf(d, no, signed), rest);
  }

  /** The listing shows exactly the files. */
  lemma {:induction false} ListingIff(d: Disk, no: nat, signed: bool, e: FileEntry)
    requires PlainFlags(d) && Compact(d) && no <= FILES
    ensures e in Listing(d, no, signed) <==> no <= e.no && Used(d, e.no) && e == EntryOf(d, e.no, signed)
    decreases FILES - no
  {
    if no < FILES {
      FlagOf(d, no);
      if DirByte(d, no, 0) == 0 {
        NothingBehind(d, no);
      } else {
        ListingIff(d, no + 1, signed, e);
      }
    }
  }

  lemma FlagOf(d: Disk, no: nat)
    requires PlainFlags(d) && no < FILES
    ensures DirByte(d, no, 0) == 0 || (Used(d, no) <==> !Skipped(DirByte(d, no, 0)))
  {
    assert DirByte(d, no, 0) in {0, IN_USE, DELETED};
  }

  /** One entry of the directory has become that of a file, or deleted. */
  ghost predicate EntryChanged(d: Disk, r: Disk, no: nat) {
    && no < FILES && DirByte(r, no, 0) != 0
    && (forall f: nat :: f < FILES && f != no ==> DirByte(r, f, 0) == DirByte(d, f, 0))
    && (forall f: nat :: f < no ==> DirByte(d, f, 0) != 0)
  }

  lemma ChangedCompact(d: Disk, r: Disk, no: nat)
    requires Compact(d) && EntryChanged(d, r, no)
    ensures Compact(r)
  {
  }

  lemma InsertChanges(d: Disk, name: Name, bytes: seq<Byte>, r: Disk)
    requires Sound(d) && Fits(d, bytes) && r == Inserted(d, name, bytes).disk
    ensures EntryChanged(d, r, FreeNumber(d, 0))
  {
    var no := FreeNumber(d, 0);
    var m, first, n, e := InsertAdds(d, name, bytes);
    AddedFileSound(d, m, r, no, first, n, bytes, e);
    forall f: nat | f < FILES && f != no ensures DirByte(r, f, 0) == DirByte(d, f, 0) {
      OtherEntrySame(d, m, r, no, 0, e, f);
    }
  }

  lemma EraseChanges(d: Disk, no: nat, signed: bool, r: Disk)
    requires Sound(d) && Compact(d) && Used(d, no) && Decodable(d, no, signed)
    requires r == Erased(d, EntryOf(d, no, signed)).disk
    ensures EntryChanged(d, r, no)
  {
    FirstInData(d, no);
    EntryOfUsed(d, no, signed);
    var q := EraseFrees(d, EntryOf(d, no, signed), Erased(d, EntryOf(d, no, signed)));
    assert DirByte(r, no, 0) == DELETED;
    forall f: nat | f < FILES && f != no ensures DirByte(r, f, 0) == DirByte(d, f, 0) {
      OtherEntrySame(d, q, r, no, 0, [DELETED], f);
    }
  }

  lemma StepCompact(d: Disk, call: Call, signed: bool)
    requires Sound(d) && Compact(d) && Safe(d, call, signed)
    ensures Compact(Step(d, call, signed))
  {
    match call {
      case Insert(name, bytes) =>
        InsertOkIff(d, name, bytes);
        if Fits(d, bytes) {
          InsertChanges(d, name, bytes, Step(d, call, signed));
          ChangedCompact(d, Step(d, call, signed), FreeNumber(d, 0));
        }
      case Erase(no) =>
        if Used(d, no) {
          EraseChanges(d, no, signed, Step(d, call, signed));
          ChangedCompact(d, Step(d, call, signed), no);
        }
    }
  }

  lemma {:induction false} RunCompact(d: Disk, calls: seq<Call>, signed: bool)
    requires Sound(d) && Compact(d) && SafeRun(d, calls, signed)
    ensures Compact(Run(d, calls, signed))
    decreases |calls|
  {
    if calls != [] {
      StepSoundIff(d, calls[0], signed);
      StepCompact(d, calls[0], signed);
      RunCompact(Step(d, calls[0], signed), calls[1..], signed);
    }
  }

  /** After every safe run from such a disk the directory lists the files that the run on the map leaves, by name. */
  lemma RunLists(d: Disk, calls: seq<Call>, signed: bool, no: nat, name: Name)
    requires Sound(d) && Compact(d) && SafeRun(d, calls, signed)
    ensures var files := VolumeRun(View(d), calls, d.density).files;
            (exists e :: e in Listing(Run(d, calls, signed), 0, signed) && e.no == no && e.name == name)
            <==> no in files && files[no].name == name
  {
    var r := Run(d, calls, signed);
    RunRefines(d, calls, signed);
    RunCompact(d, calls, signed);
    if e :| e in Listing(r, 0, signed) && e.no == no && e.name == name {
      ListingIff(r, 0, signed, e);
    }
    if Used(r, no) {
      ListingIff(r, 0, signed, EntryOf(r, no, signed));
    }
  }
}
