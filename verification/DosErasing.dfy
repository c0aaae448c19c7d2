/**
 Reading and erasing files of an Atari DOS disk through directory entries as the program decodes them. Whether that
 works depends on the bytes of an entry being taken as signed, which C++ leaves to the platform for `char`.
 */
module DosErasing {
  import opened SectorBitmap
  import opened DosDisk
  import opened DosFiles

  // ---------- Directory entries ----------

  /** A directory entry as the program decodes it; the size is -1 for a directory. */
  datatype FileEntry = FileEntry(no: nat, name: Name, first: Word, size: int, myDos: bool, dos10: bool)

  /** The value of a `char`. */
  function CharValue(b: Byte, signed: bool): int {
    var value: int := b;
    if signed && value >= 0x80 then value - 0x100 else value
  }

  function EntryOf(d: Disk, no: nat, signed: bool): FileEntry
    requires no < FILES
  {
    var flag: int := DirByte(d, no, 0);
    var directory := flag / 0x10 % 2 == 1;
    var first := CharValue(DirByte(d, no, 3), signed) + CharValue(DirByte(d, no, 4), signed) * 256;
    FileEntry(no, NameOf(d, no), first % 0x10000, if directory then -1 else Count(d, no) * d.density.Room(),
              flag / 4 % 2 == 1, flag / 2 % 2 == 0 && !directory)
  }

  /** The first sector is decoded as it was stored. */
  predicate Decodable(d: Disk, no: nat, signed: bool) {
    !signed || First(d, no) % 256 < 0x80
  }

  /** The sector that an entry leads to: with signed bytes, 256 too low if the low byte is above 127. */
  function DecodedFirst(first: nat, signed: bool): nat
    requires first < SECTORS
  {
    if !signed || first % 0x100 < 0x80 then first
    else if first < 0x100 then first + 0xFF00
    else first - 0x100
  }

  lemma FirstDecoded(low: Byte, high: Byte, signed: bool, first: nat)
    requires first == low + high * 256 && first < SECTORS
    ensures (CharValue(low, signed) + CharValue(high, signed) * 256) % 0x10000 == DecodedFirst(first, signed)
  {
  }

  lemma FirstInData(d: Disk, no: nat)
    requires Sound(d) && Used(d, no)
    ensures InData(First(d, no)) && First(d, no) !in Free(d.bitmap) && OwnerOf(d, First(d, no)) == no
    ensures Count(d, no) > 0
  {
    assert FileSound(d, no);
  }

  lemma EntryOfUsed(d: Disk, no: nat, signed: bool)
    requires Used(d, no) && First(d, no) < SECTORS
    ensures var e := EntryOf(d, no, signed);
            && e.no == no && e.name == NameOf(d, no) && !e.myDos && !e.dos10
            && e.size == Count(d, no) * d.density.Room()
            && e.first == DecodedFirst(First(d, no), signed)
  {
    FirstDecoded(DirByte(d, no, 3), DirByte(d, no, 4), signed, First(d, no));
  }

  /** The number of sectors that a size stands for. */
  function SectorsIn(size: int, room: nat): Word
    requires room > 0
  {
    if size < 0 then 0 else size / room % 0x10000
  }

  lemma SectorsInSize(n: Word, density: Density)
    ensures SectorsIn(n * density.Room(), density.Room()) == n
  {
  }

  function LinkOf(d: Disk, s: nat, myDos: bool): Word {
    var high: int, low: int := At(d, s, d.density.Room()), At(d, s, d.density.Room() + 1);
    if myDos then high * 256 + low else NextOf(d, s)
  }

  // ---------- Chains have no repeats ----------

  lemma {:induction false} SameLength(d: Disk, no: nat, s: nat, n: nat, m: nat)
    requires ChainSound(d, no, s, n) && ChainSound(d, no, s, m)
    ensures n == m
    decreases n
  {
    if n > 1 && m > 1 {
      SameLength(d, no, NextOf(d, s), n - 1, m - 1);
    }
  }

  lemma {:induction false} ChainSuffix(d: Disk, no: nat, s: nat, n: nat, i: nat)
    requires ChainSound(d, no, s, n) && i < n
    ensures ChainSound(d, no, Follow(d, s, n)[i], n - i)
    decreases n
  {
    if i > 0 {
      ChainSuffix(d, no, NextOf(d, s), n - 1, i - 1);
    }
  }

  /** No sector stands twice in a chain. */
  lemma ChainDistinct(d: Disk, no: nat, s: nat, n: nat, i: nat, j: nat)
    requires ChainSound(d, no, s, n) && i < j < n
    ensures Follow(d, s, n)[i] != Follow(d, s, n)[j]
  {
    ChainSuffix(d, no, s, n, i);
    ChainSuffix(d, no, s, n, j);
    if Follow(d, s, n)[i] == Follow(d, s, n)[j] {
      SameLength(d, no, Follow(d, s, n)[i], n - i, n - j);
    }
  }

  /** The chains of two files have no sector in common, and a sector is free exactly if it is in no chain. */
  lemma ChainsPartition(d: Disk, f: nat, g: nat, s: nat)
    requires Sound(d) && Used(d, f) && Used(d, g) && f != g && InData(s)
    ensures s !in ChainOf(d, f) || s !in ChainOf(d, g)
    ensures s in Free(d.bitmap) <==> forall no: nat :: Used(d, no) ==> s !in ChainOf(d, no)
  {
    forall no: nat | Used(d, no) && s in ChainOf(d, no) ensures s !in Free(d.bitmap) && OwnerOf(d, s) == no {
      assert FileSound(d, no);
      ChainMembers(d, no, First(d, no), Count(d, no));
    }
    assert s !in Free(d.bitmap) ==> Owned(d, s);
  }

  // ---------- Erasing ----------

  /** `OutOfBounds` is an access to the bitmap behind its end. */
  datatype Outcome = Done | Failed | OutOfBounds
  datatype Erasing = Erasing(outcome: Outcome, disk: Disk)

  function ReleaseChain(d: Disk, e: FileEntry, s: Word, n: Word): (r: Erasing)
    ensures r.disk.image == d.image && r.disk.density == d.density
    decreases n
  {
    if n == 0 || s == 0 then Erasing(Done, d)
    else if s >= SECTORS then Erasing(OutOfBounds, d)
    else
      var r := Release(d, s);
      if s !in d.image || (!e.myDos && OwnerOf(d, s) != e.no) then Erasing(Failed, r)
      else ReleaseChain(r, e, LinkOf(d, s, e.myDos), n - 1)
  }

  function Erased(d: Disk, e: FileEntry): (r: Erasing)
    requires Shaped(d) && e.no < FILES
    ensures Shaped(r.disk)
  {
    var r := ReleaseChain(WithEntry(d, e.no, 0, [DELETED]), e, e.first, SectorsIn(e.size, d.density.Room()));
    if r.outcome.Done? then Erasing(Done, WithBitmap(r.disk)) else r
  }

  lemma CountUp(a: set<nat>, b: set<nat>, s: nat, x: Word, y: Word)
    requires s !in a && b == a + {s} && x == |a| && |b| <= SECTORS && y == (x + 1) % 0x10000
    ensures y == |b| && y == x + 1
  {
  }

  lemma ReleaseReady(d: Disk, s: nat)
    requires Ready(d) && InData(s) && s !in Free(d.bitmap)
    ensures Ready(Release(d, s)) && Free(Release(d, s).bitmap) == Free(d.bitmap) + {s}
    ensures Release(d, s).free == d.free + 1
  {
    FreeAfter(d.bitmap, s);
    FreeBounded(Released(d.bitmap, s));
    CountUp(Free(d.bitmap), Free(Released(d.bitmap, s)), s, d.free, Release(d, s).free);
  }

  lemma NextAfterRelease(d: Disk, no: nat, s: nat, n: nat)
    requires Ready(d) && ChainSound(d, no, s, n) && n > 1
    ensures ChainSound(Release(d, s), no, NextOf(d, s), n - 1)
    ensures Follow(Release(d, s), NextOf(d, s), n - 1) == Follow(d, NextOf(d, s), n - 1)
    ensures s !in Follow(d, NextOf(d, s), n - 1)
  {
    var c := Follow(d, NextOf(d, s), n - 1);
    ReleaseReady(d, s);
    ChainMembers(d, no, NextOf(d, s), n - 1);
    forall x | x in c ensures x != s && Untouched(d, Release(d, s), x) {
      var i :| 0 <= i < n - 1 && c[i] == x;
      ChainDistinct(d, no, s, n, 0, i + 1);
    }
    ChainFrame(d, Release(d, s), no, NextOf(d, s), n - 1);
  }

  /** Disk r is d with the sectors of c free as well. */
  ghost predicate Freed(d: Disk, r: Disk, c: seq<nat>) {
    && Ready(r) && r.image == d.image && r.density == d.density && r.free == d.free + |c|
    && forall x :: x in Free(r.bitmap) <==> x in Free(d.bitmap) || x in c
  }

  lemma ReleaseStep(d: Disk, e: FileEntry, s: Word, n: Word, r: Erasing) returns (mid: Disk, next: Word)
    requires Ready(d) && ChainSound(d, e.no, s, n) && !e.myDos
    requires r == ReleaseChain(d, e, s, n)
    ensures Freed(d, mid, [s]) && next == NextOf(d, s)
    ensures if n == 1 then r == Erasing(Done, mid)
            else r == ReleaseChain(mid, e, next, n - 1) && ChainSound(mid, e.no, next, n - 1)
    ensures Follow(d, s, n) == [s] + Follow(mid, next, n - 1)
  {
    mid, next := Release(d, s), NextOf(d, s);
    ReleaseReady(d, s);
    if n > 1 {
      NextAfterRelease(d, e.no, s, n);
    }
  }

  lemma FreedOneMore(d: Disk, mid: Disk, r: Disk, s: nat, c: seq<nat>)
    requires Freed(d, mid, [s]) && Freed(mid, r, c)
    ensures Freed(d, r, [s] + c)
  {
  }

  /** Releasing a sound chain frees exactly its sectors. */
  lemma {:induction false} ReleaseEffect(d: Disk, e: FileEntry, s: Word, n: Word, r: Erasing)
    requires Ready(d) && ChainSound(d, e.no, s, n) && !e.myDos
    requires r == ReleaseChain(d, e, s, n)
    ensures r.outcome == Done && Freed(d, r.disk, Follow(d, s, n))
    decreases n
  {
    var mid, next := ReleaseStep(d, e, s, n, r);
    if n > 1 {
      ReleaseEffect(mid, e, next, n - 1, r);
      FreedOneMore(d, mid, r.disk, s, Follow(mid, next, n - 1));
    }
  }

  /** Disk q is d with the chain of file `no` freed in memory; r is q with the entry of the file marked deleted. */
  ghost predicate FileErased(d: Disk, q: Disk, r: Disk, no: nat) {
    && Sound(d) && Used(d, no)
    && Freed(d, q, ChainOf(d, no))
    && Recorded(q, r, no, 0, [DELETED])
  }

  lemma KeptFileSound(d: Disk, q: Disk, r: Disk, no: nat, f: nat)
    requires FileErased(d, q, r, no) && Used(d, f) && f != no
    ensures Used(r, f) && FileSound(r, f) && Bytes(r, f) == Bytes(d, f) && ChainOf(r, f) == ChainOf(d, f)
  {
    assert FileSound(d, f) && FileSound(d, no);
    OtherEntrySame(d, q, r, no, 0, [DELETED], f);
    ChainMembers(d, f, First(d, f), Count(d, f));
    ChainMembers(d, no, First(d, no), Count(d, no));
    forall x | x in ChainOf(d, f) ensures Untouched(d, r, x) {
      assert x !in ChainOf(d, no);
    }
    ChainFrame(d, r, f, First(d, f), Count(d, f));
    assert forall s: nat | InData(s) :: OwnerOf(r, s) == OwnerOf(d, s) by {
      assert forall s: nat | InData(s) :: r.image[s] == q.image[s];
    }
  }

  lemma KeptOwned(d: Disk, q: Disk, r: Disk, no: nat, s: nat)
    requires FileErased(d, q, r, no) && InData(s) && s !in Free(r.bitmap)
    ensures Owned(r, s)
  {
    assert Owned(d, s) && s !in ChainOf(d, no);
    assert r.image[s] == q.image[s];
    assert OwnerOf(r, s) == OwnerOf(d, s);
    KeptFileSound(d, q, r, no, OwnerOf(d, s));
  }

  lemma FileAfterErasing(d: Disk, q: Disk, r: Disk, no: nat, f: nat)
    requires FileErased(d, q, r, no) && f < FILES
    ensures DirByte(r, f, 0) in {0, IN_USE, DELETED}
    ensures Used(r, f) <==> f != no && Used(d, f)
    ensures Used(r, f) ==> FileSound(r, f) && FileAt(r, f) == FileAt(d, f)
  {
    if f == no {
      assert DirByte(r, no, 0) == DELETED;
    } else {
      OtherEntrySame(d, q, r, no, 0, [DELETED], f);
      if Used(d, f) {
        KeptFileSound(d, q, r, no, f);
      }
    }
  }

  lemma FileErasedSound(d: Disk, q: Disk, r: Disk, no: nat)
    requires FileErased(d, q, r, no)
    ensures Sound(r)
  {
    forall f: nat | f < FILES
      ensures DirByte(r, f, 0) in {0, IN_USE, DELETED}
      ensures Used(r, f) ==> FileSound(r, f)
    {
      FileAfterErasing(d, q, r, no, f);
    }
    forall s: nat | InData(s) && s !in Free(r.bitmap) ensures Owned(r, s) {
      KeptOwned(d, q, r, no, s);
    }
    assert Ready(r);
  }

  ghost predicate FileKept(d: Disk, r: Disk, no: nat, f: nat) {
    && (Used(r, f) <==> f != no && Used(d, f))
    && (Used(r, f) ==> FileAt(r, f) == FileAt(d, f))
  }

  lemma OneFileLess(d: Disk, r: Disk, no: nat)
    requires forall f: nat :: f < FILES ==> FileKept(d, r, no, f)
    ensures Files(r) == Files(d) - {no}
  {
    forall f: nat | f < FILES
      ensures f in Files(r) <==> f != no && f in Files(d)
      ensures f in Files(r) ==> Files(r)[f] == Files(d)[f]
    {
      assert FileKept(d, r, no, f);
    }
  }

  lemma FileErasedFiles(d: Disk, q: Disk, r: Disk, no: nat)
    requires FileErased(d, q, r, no)
    ensures Files(r) == Files(d) - {no}
  {
    forall f: nat | f < FILES ensures FileKept(d, r, no, f) {
      FileAfterErasing(d, q, r, no, f);
    }
    OneFileLess(d, r, no);
  }

  /** Marking an entry and changing what is in memory commute. */
  lemma EntryThenMemory(d: Disk, no: nat, b: Bitmap, free: Word)
    requires Shaped(d) && no < FILES
    ensures WithEntry(d, no, 0, [DELETED]).(bitmap := b, free := free)
            == WithEntry(d.(bitmap := b, free := free), no, 0, [DELETED])
  {
  }

  lemma EntryMarked(d: Disk, m: Disk, no: nat)
    requires Sound(d) && Used(d, no) && m == WithEntry(d, no, 0, [DELETED])
    ensures Ready(m) && ChainSound(m, no, First(d, no), Count(d, no))
    ensures Follow(m, First(d, no), Count(d, no)) == ChainOf(d, no)
  {
    assert FileSound(d, no);
    ChainMembers(d, no, First(d, no), Count(d, no));
    forall x | x in ChainOf(d, no) ensures Untouched(d, m, x) {
      assert x != ROOT + no / 8;
    }
    ChainFrame(d, m, no, First(d, no), Count(d, no));
  }

  lemma MarkedReleased(d: Disk, m: Disk, e: FileEntry, w: Erasing)
    requires Sound(d) && Used(d, e.no) && !e.myDos && e.first == First(d, e.no)
    requires m == WithEntry(d, e.no, 0, [DELETED]) && w == ReleaseChain(m, e, e.first, Count(d, e.no))
    ensures w.outcome == Done && Freed(m, w.disk, ChainOf(d, e.no))
  {
    EntryMarked(d, m, e.no);
    ReleaseEffect(m, e, e.first, Count(d, e.no), w);
  }

  lemma EraseFrees(d: Disk, e: FileEntry, r: Erasing) returns (q: Disk)
    requires Sound(d) && Used(d, e.no) && !e.myDos && e.first == First(d, e.no)
    requires e.size == Count(d, e.no) * d.density.Room() && r == Erased(d, e)
    ensures r.outcome == Done && FileErased(d, q, r.disk, e.no)
  {
    var m := WithEntry(d, e.no, 0, [DELETED]);
    SectorsInSize(Count(d, e.no), d.density);
    var w := ReleaseChain(m, e, e.first, Count(d, e.no));
    MarkedReleased(d, m, e, w);
    q := d.(bitmap := w.disk.bitmap, free := w.disk.free);
    EntryThenMemory(d, e.no, q.bitmap, q.free);
    assert w.disk == WithEntry(q, e.no, 0, [DELETED]);
    RecordedByWriting(q, e.no, 0, [DELETED]);
  }

  /** Erasing a file through its entry removes the file, and nothing else on a sound disk changes. */
  lemma EraseRemoves(d: Disk, no: nat, signed: bool)
    requires Sound(d) && Used(d, no) && Decodable(d, no, signed)
    ensures var r := Erased(d, EntryOf(d, no, signed));
            && r.outcome == Done && Sound(r.disk) && r.disk.density == d.density
            && Files(r.disk) == Files(d) - {no}
            && Free(r.disk.bitmap) == Free(d.bitmap) + (set s | s in ChainOf(d, no))
            && r.disk.free == d.free + Count(d, no)
  {
    FirstInData(d, no);
    EntryOfUsed(d, no, signed);
    var r := Erased(d, EntryOf(d, no, signed));
    var q := EraseFrees(d, EntryOf(d, no, signed), r);
    FileErasedSound(d, q, r.disk, no);
    FileErasedFiles(d, q, r.disk, no);
  }

  lemma WrongSector(first: nat)
    requires InData(first) && first % 0x100 >= 0x80 && first >= 0x100
    ensures InData(first - 0x100)
  {
  }

  /** A wrongly decoded entry leads behind the bitmap, or to a sector that is not of the file. */
  lemma WrongFirst(d: Disk, no: nat, s: nat)
    requires Sound(d) && Used(d, no) && !Decodable(d, no, true) && s == DecodedFirst(First(d, no), true)
    ensures if First(d, no) < 0x100 then s > SECTORS
            else InData(s) && s == First(d, no) - 0x100 && OwnerOf(d, s) != no
  {
    assert FileSound(d, no);
    if First(d, no) >= 0x100 {
      WrongSector(First(d, no));
    }
  }

  lemma OwnersKept(d: Disk, m: Disk, no: nat, s: nat)
    requires Shaped(d) && no < FILES && m == WithEntry(d, no, 0, [DELETED]) && InData(s)
    ensures s in m.image && OwnerOf(m, s) == OwnerOf(d, s) && m.bitmap == d.bitmap
  {
  }

  /** What erasing a file does that has no sectors to follow, because its entry is wrongly decoded. */
  lemma WrongRelease(d: Disk, e: FileEntry, r: Erasing)
    requires Sound(d) && Used(d, e.no) && !Decodable(d, e.no, true) && e.first == DecodedFirst(First(d, e.no), true)
    requires !e.myDos && e.size == Count(d, e.no) * d.density.Room() && r == Erased(d, e)
    ensures var m := WithEntry(d, e.no, 0, [DELETED]);
            r == if First(d, e.no) < 0x100 then Erasing(OutOfBounds, m)
                 else Erasing(Failed, Release(m, First(d, e.no) - 0x100))
  {
    var m := WithEntry(d, e.no, 0, [DELETED]);
    FirstInData(d, e.no);
    WrongFirst(d, e.no, e.first);
    SectorsInSize(Count(d, e.no), d.density);
    if First(d, e.no) >= 0x100 {
      OwnersKept(d, m, e.no, e.first);
    }
  }

  /** Whatever the memory holds, the disk is not sound while the sectors of a deleted file stay allocated. */
  lemma NotOwned(d: Disk, r: Disk, no: nat, s: nat)
    requires Sound(d) && Used(d, no)
    requires r.image == WithEntry(d, no, 0, [DELETED]).image && r.density == d.density
    requires Free(r.bitmap) <= Free(d.bitmap) + {s} && s != First(d, no)
    ensures !Sound(r)
  {
    var f := First(d, no);
    FirstInData(d, no);
    assert f != ROOT + no / 8;
    assert OwnerOf(r, f) == no;
    assert DirByte(r, no, 0) == DELETED;
    assert !Owned(r, f) && f !in Free(r.bitmap);
  }

  lemma NotOwnedAfterRelease(d: Disk, m: Disk, no: nat, s: nat)
    requires Sound(d) && Used(d, no) && m == WithEntry(d, no, 0, [DELETED]) && InData(s) && s != First(d, no)
    ensures !Sound(Release(m, s))
  {
    FreeAfter(d.bitmap, s);
    NotOwned(d, Release(m, s), no, s);
  }

  lemma NotErased(d: Disk, e: FileEntry, r: Erasing)
    requires Sound(d) && Used(d, e.no) && !Decodable(d, e.no, true) && e.first == DecodedFirst(First(d, e.no), true)
    requires !e.myDos && e.size == Count(d, e.no) * d.density.Room() && r == Erased(d, e)
    ensures !Sound(r.disk) && r.outcome != Done
  {
    var m := WithEntry(d, e.no, 0, [DELETED]);
    WrongRelease(d, e, r);
    WrongFirst(d, e.no, e.first);
    if First(d, e.no) < 0x100 {
      FirstInData(d, e.no);
      NotOwned(d, m, e.no, 0);
    } else {
      NotOwnedAfterRelease(d, m, e.no, e.first);
    }
  }

  /** Erasing a file finishes and keeps the disk sound if and only if its first sector is decoded as it was stored. */
  lemma EraseSoundIff(d: Disk, no: nat, signed: bool)
    requires Sound(d) && Used(d, no)
    ensures var r := Erased(d, EntryOf(d, no, signed));
            && (Sound(r.disk) <==> Decodable(d, no, signed))
            && (r.outcome == Done <==> Decodable(d, no, signed))
  {
    if Decodable(d, no, signed) {
      EraseRemoves(d, no, signed);
    } else {
      FirstInData(d, no);
      EntryOfUsed(d, no, signed);
      NotErased(d, EntryOf(d, no, signed), Erased(d, EntryOf(d, no, signed)));
    }
  }

  lemma EntryMarkedOthers(d: Disk, m: Disk, no: nat, f: nat)
    requires Shaped(d) && no < FILES && m == WithEntry(d, no, 0, [DELETED]) && f != no && Used(d, f)
    ensures Used(m, f)
  {
    EntryBytes(d, no, 0, [DELETED], f, 0);
    assert DirByte(WithBitmap(m), f, 0) == DirByte(m, f, 0);
  }

  lemma WronglyReleased(d: Disk, no: nat, e: FileEntry, s: nat)
    requires Sound(d) && Used(d, no) && !Decodable(d, no, true) && First(d, no) >= 0x100
    requires s == First(d, no) - 0x100 && e == EntryOf(d, no, true)
    ensures InData(s) && OwnerOf(d, s) != no
    ensures Erased(d, e).disk == Release(WithEntry(d, no, 0, [DELETED]), s)
  {
    FirstInData(d, no);
    EntryOfUsed(d, no, true);
    WrongFirst(d, no, s);
    WrongRelease(d, e, Erased(d, e));
  }

  /** Then erasing a file whose first sector is above 255 frees a sector of another file that is still there. */
  lemma EraseDamages(d: Disk, no: nat, s: nat, e: FileEntry)
    requires Sound(d) && Used(d, no) && !Decodable(d, no, true) && s == First(d, no) - 0x100
    requires s !in Free(d.bitmap) && e == EntryOf(d, no, true)
    ensures var f := OwnerOf(d, s);
            && f != no && Used(d, f) && s in ChainOf(d, f)
            && Used(Erased(d, e).disk, f) && s in Free(Erased(d, e).disk.bitmap)
  {
    var m := WithEntry(d, no, 0, [DELETED]);
    WronglyReleased(d, no, e, s);
    assert Owned(d, s);
    FreeAfter(m.bitmap, s);
    EntryMarkedOthers(d, m, no, OwnerOf(d, s));
    assert Used(Release(m, s), OwnerOf(d, s));
  }
}
