/** Inserting files into an Atari DOS disk: the directory, what a sound disk is, and that inserting keeps it sound. */
module DosFiles {
  import opened SectorBitmap
  import opened DosDisk

  // ---------- The directory and the sector of the bitmap ----------

  function Spliced(data: Sector, at: nat, t: seq<Byte>): (r: Sector)
    requires at + |t| <= |data|
    ensures |r| == |data|
    ensures forall i :: 0 <= i < |r| ==> r[i] == if at <= i < at + |t| then t[i - at] else data[i]
  {
    data[..at] + t + data[at + |t|..]
  }

  /** The disk with the bytes t written into directory entry `no`, from its byte `at` on. */
  function WithEntry(d: Disk, no: nat, at: nat, t: seq<Byte>): (r: Disk)
    requires Shaped(d) && no < FILES && at + |t| <= 16
    ensures Shaped(r)
  {
    var s := ROOT + no / 8;
    Put(d, s, Spliced(d.image[s], no % 8 * 16 + at, t))
  }

  function BitmapBytes(b: Bitmap): (r: seq<Byte>)
    ensures |r| == 90
  {
    seq(90, i requires 0 <= i < 90 => b[i] as Byte)
  }

  /** The disk with the bitmap and the number of free sectors written to their sector. */
  function WithBitmap(d: Disk): (r: Disk)
    requires Shaped(d)
    ensures Shaped(r)
  {
    Put(d, VTOC, Spliced(Spliced(d.image[VTOC], 10, BitmapBytes(d.bitmap)), 3, [d.free % 256, d.free / 256]))
  }

  function WordAt(data: seq<Byte>, k: nat): Word
    requires k + 1 < |data|
  {
    var low: int, high: int := data[k], data[k + 1];
    low + high * 256
  }

  /** What a program that opens the disk takes for its bitmap and its free sectors. */
  function Opened(density: Density, image: Image): Disk
    requires VTOC in image && |image[VTOC]| >= 100
  {
    var data := image[VTOC];
    Disk(density, image, seq(90, i requires 0 <= i < 90 => data[10 + i] as bv8), WordAt(data, 3))
  }

  lemma ByteRoundTrip(x: bv8)
    ensures (x as Byte) as bv8 == x
  {
  }

  /** Opening a disk whose bitmap has been written yields the state it was written from. */
  lemma OpenedAfterWriting(d: Disk)
    requires Shaped(d)
    ensures Opened(d.density, WithBitmap(d).image) == WithBitmap(d)
  {
    var data := WithBitmap(d).image[VTOC];
    forall i | 0 <= i < 90 ensures data[10 + i] as bv8 == d.bitmap[i] {
      ByteRoundTrip(d.bitmap[i]);
      assert data[10 + i] == BitmapBytes(d.bitmap)[i];
    }
  }

  lemma EntryBytes(d: Disk, no: nat, at: nat, t: seq<Byte>, n: nat, k: nat)
    requires Shaped(d) && no < FILES && at + |t| <= 16 && n < FILES && k < 16
    ensures DirByte(WithBitmap(WithEntry(d, no, at, t)), n, k)
            == DirByte(WithEntry(d, no, at, t), n, k)
            == if n == no && at <= k < at + |t| then t[k - at] else DirByte(d, n, k)
  {
    var e := WithEntry(d, no, at, t);
    assert ROOT + n / 8 != VTOC;
    assert DirByte(WithBitmap(e), n, k) == DirByte(e, n, k);
    if n / 8 == no / 8 {
      assert n == no <==> n % 8 == no % 8;
    }
  }

  // ---------- Sound disks ----------

  function Bytes(d: Disk, no: nat): seq<Byte> {
    Gather(d, First(d, no), Count(d, no))
  }

  /** The eleven bytes of a file name: eight of the name proper and three of the extension. */
  type Name = s: seq<Byte> | |s| == 11 witness seq(11, _ => 0x20)

  function NameOf(d: Disk, no: nat): Name {
    seq(11, k requires 0 <= k < 11 => DirByte(d, no, 5 + k))
  }

  datatype File = File(name: Name, bytes: seq<Byte>)

  function FileAt(d: Disk, no: nat): File {
    File(NameOf(d, no), Bytes(d, no))
  }

  /** The sectors of file `no`. */
  function ChainOf(d: Disk, no: nat): seq<nat> {
    Follow(d, First(d, no), Count(d, no))
  }

  /** No sector below the first one of the file bears its number. */
  ghost predicate LowestFirst(d: Disk, no: nat) {
    forall s: nat :: InData(s) && s < First(d, no) ==> OwnerOf(d, s) != no
  }

  ghost predicate FileSound(d: Disk, no: nat) {
    && ChainSound(d, no, First(d, no), Count(d, no))
    && Count(d, no) == SectorsFor(|Bytes(d, no)|, d.density.Room())
    && LowestFirst(d, no)
  }

  /** The sector belongs to the file whose number it bears. */
  predicate Owned(d: Disk, s: nat) {
    Used(d, OwnerOf(d, s)) && s in ChainOf(d, OwnerOf(d, s))
  }

  ghost predicate PlainFlags(d: Disk) {
    forall no: nat :: no < FILES ==> DirByte(d, no, 0) in {0, IN_USE, DELETED}
  }

  /**
   The bitmap marks exactly the sectors outside the chains of the files, their number is right, and both are on the
   disk as well; every file has a chain of its own that is well linked.
   */
  ghost predicate Sound(d: Disk) {
    && Ready(d)
    && PlainFlags(d)
    && (forall no: nat :: Used(d, no) ==> FileSound(d, no))
    && (forall s: nat :: InData(s) && s !in Free(d.bitmap) ==> Owned(d, s))
    && Opened(d.density, d.image) == d
  }

  function Files(d: Disk): (m: map<nat, File>)
    ensures forall no: nat :: no in m <==> Used(d, no)
    ensures forall no | no in m :: m[no] == FileAt(d, no)
  {
    map no: nat | no < FILES && Used(d, no) :: FileAt(d, no)
  }

  // ---------- Inserting a file ----------

  function FreeNumber(d: Disk, no: nat): (r: nat)
    requires no <= FILES
    ensures no <= r <= FILES
    ensures r < FILES ==> DirByte(d, r, 0) == 0 || DirByte(d, r, 0) == DELETED
    ensures forall n :: no <= n < r ==> DirByte(d, n, 0) != 0 && DirByte(d, n, 0) != DELETED
    decreases FILES - no
  {
    if no == FILES || DirByte(d, no, 0) == 0 || DirByte(d, no, 0) == DELETED then no else FreeNumber(d, no + 1)
  }

  function Entry(count: nat, first: nat, name: Name): (r: seq<Byte>)
    requires first < 0x10000
    ensures |r| == 16
  {
    [IN_USE, count % 256, count / 256 % 256, first % 256, first / 256] + name
  }

  function Inserted(d: Disk, name: Name, bytes: seq<Byte>): (r: Writing)
    requires Shaped(d)
    ensures Shaped(r.disk)
  {
    var no, first := FreeNumber(d, 0), FoundFree(d.bitmap, 0);
    if no == FILES || |bytes| > d.free * d.density.Room() || first == 0 then Writing(false, d)
    else
      var w := WriteChain(Allocate(d, first), no, first, bytes);
      if !w.ok then w
      else
        var entry := Entry(SectorsFor(|bytes|, d.density.Room()), first, name);
        Writing(true, WithBitmap(WithEntry(w.disk, no, 0, entry)))
  }

  /** Disk r is m with another directory entry and a new copy of the bitmap on the disk. */
  ghost predicate Recorded(m: Disk, r: Disk, no: nat, at: nat, t: seq<Byte>) {
    && Shaped(r) && r.density == m.density && r.bitmap == m.bitmap && r.free == m.free
    && (forall x: nat :: InData(x) ==> x in m.image && x in r.image && r.image[x] == m.image[x])
    && (forall n: nat, k: nat :: n < FILES && k < 16 ==>
          DirByte(r, n, k) == if n == no && at <= k < at + |t| then t[k - at] else DirByte(m, n, k))
    && Opened(r.density, r.image) == r
  }

  lemma RecordedByWriting(m: Disk, no: nat, at: nat, t: seq<Byte>)
    requires Shaped(m) && no < FILES && at + |t| <= 16
    ensures Recorded(m, WithBitmap(WithEntry(m, no, at, t)), no, at, t)
  {
    OpenedAfterWriting(WithEntry(m, no, at, t));
    forall n: nat, k: nat | n < FILES && k < 16
      ensures DirByte(WithBitmap(WithEntry(m, no, at, t)), n, k)
              == if n == no && at <= k < at + |t| then t[k - at] else DirByte(m, n, k)
    {
      EntryBytes(m, no, at, t, n, k);
    }
  }

  /** Disk m is d with a chain of n sectors for a file that is not yet in the directory. */
  ghost predicate NewChain(d: Disk, m: Disk, no: nat, first: nat, n: nat, bytes: seq<Byte>) {
    && Ready(m) && m.density == d.density
    && ChainSound(m, no, first, n) && Gather(m, first, n) == bytes
    && (forall x: nat :: InData(x) && x !in Follow(m, first, n)
                         ==> x in d.image && x in m.image && m.image[x] == d.image[x])
    && (forall x :: x in Free(m.bitmap) <==> x in Free(d.bitmap) && x !in Follow(m, first, n))
    && (forall x | x in Follow(m, first, n) :: x in Free(d.bitmap))
    && (forall f: nat, k: nat :: f < FILES && k < 16 ==> DirByte(m, f, k) == DirByte(d, f, k))
  }

  predicate EntryFor(e: seq<Byte>, n: nat, first: nat) {
    |e| == 16 && e[0] == IN_USE && WordAt(e, 1) == n && WordAt(e, 3) == first
  }

  ghost predicate FileAdded(d: Disk, m: Disk, r: Disk, no: nat, first: nat, n: nat, bytes: seq<Byte>, e: seq<Byte>) {
    && Sound(d) && no < FILES && !Used(d, no)
    && (forall s | s in Free(d.bitmap) :: first <= s)
    && n == SectorsFor(|bytes|, d.density.Room())
    && NewChain(d, m, no, first, n, bytes)
    && EntryFor(e, n, first)
    && Recorded(m, r, no, 0, e)
  }

  lemma AddedFileSound(d: Disk, m: Disk, r: Disk, no: nat, first: nat, n: nat, bytes: seq<Byte>, e: seq<Byte>)
    requires FileAdded(d, m, r, no, first, n, bytes, e)
    ensures Used(r, no) && First(r, no) == first && Count(r, no) == n
    ensures FileSound(r, no) && Bytes(r, no) == bytes && ChainOf(r, no) == Follow(m, first, n)
  {
    ChainMembers(m, no, first, n);
    assert DirByte(r, no, 0) == e[0] && DirByte(r, no, 1) == e[1] && DirByte(r, no, 2) == e[2];
    assert DirByte(r, no, 3) == e[3] && DirByte(r, no, 4) == e[4];
    ChainFrame(m, r, no, first, n);
    forall s: nat | InData(s) && s < first ensures OwnerOf(r, s) != no {
      assert s !in Free(d.bitmap) && Owned(d, s);
      assert r.image[s] == d.image[s];
    }
  }

  lemma OtherEntrySame(d: Disk, m: Disk, r: Disk, no: nat, at: nat, e: seq<Byte>, f: nat)
    requires Recorded(m, r, no, at, e) && f < FILES && f != no
    requires forall f: nat, k: nat :: f < FILES && k < 16 ==> DirByte(m, f, k) == DirByte(d, f, k)
    ensures Used(r, f) == Used(d, f) && First(r, f) == First(d, f) && Count(r, f) == Count(d, f)
    ensures DirByte(r, f, 0) == DirByte(d, f, 0) && NameOf(r, f) == NameOf(d, f)
  {
    assert forall k: nat | k < 16 :: DirByte(r, f, k) == DirByte(m, f, k) == DirByte(d, f, k);
  }

  lemma NameRecorded(m: Disk, r: Disk, no: nat, e: seq<Byte>)
    requires Recorded(m, r, no, 0, e) && no < FILES && |e| == 16
    ensures NameOf(r, no) == e[5..]
  {
  }

  lemma OtherFileSound(
    d: Disk, m: Disk, r: Disk, no: nat, first: nat, n: nat, bytes: seq<Byte>, e: seq<Byte>, f: nat)
    requires FileAdded(d, m, r, no, first, n, bytes, e) && Used(d, f) && f != no
    ensures Used(r, f) && FileSound(r, f) && Bytes(r, f) == Bytes(d, f) && ChainOf(r, f) == ChainOf(d, f)
  {
    OtherEntrySame(d, m, r, no, 0, e, f);
    ChainMembers(d, f, First(d, f), Count(d, f));
    ChainMembers(m, no, first, n);
    forall x | x in ChainOf(d, f) ensures Untouched(d, r, x) {
      assert x !in Follow(m, first, n);
    }
    ChainFrame(d, r, f, First(d, f), Count(d, f));
    forall s: nat | InData(s) && s < First(r, f) ensures OwnerOf(r, s) != f {
      assert r.image[s] == m.image[s];
      if s !in Follow(m, first, n) {
        assert OwnerOf(r, s) == OwnerOf(d, s);
      }
    }
  }

  lemma StillOwned(
    d: Disk, m: Disk, r: Disk, no: nat, first: nat, n: nat, bytes: seq<Byte>, e: seq<Byte>, s: nat)
    requires FileAdded(d, m, r, no, first, n, bytes, e) && InData(s) && s !in Free(r.bitmap)
    ensures Owned(r, s)
  {
    ChainMembers(m, no, first, n);
    AddedFileSound(d, m, r, no, first, n, bytes, e);
    assert r.image[s] == m.image[s];
    if s !in Follow(m, first, n) {
      assert OwnerOf(r, s) == OwnerOf(d, s) && Owned(d, s);
      OtherFileSound(d, m, r, no, first, n, bytes, e, OwnerOf(d, s));
    }
  }

  lemma FileAfterAdding(
    d: Disk, m: Disk, r: Disk, no: nat, first: nat, n: nat, bytes: seq<Byte>, e: seq<Byte>, f: nat)
    requires FileAdded(d, m, r, no, first, n, bytes, e) && f < FILES
    ensures DirByte(r, f, 0) in {0, IN_USE, DELETED}
    ensures Used(r, f) <==> f == no || Used(d, f)
    ensures Used(r, f) ==> FileSound(r, f) && FileAt(r, f) == if f == no then File(e[5..], bytes) else FileAt(d, f)
  {
    if f == no {
      AddedFileSound(d, m, r, no, first, n, bytes, e);
      NameRecorded(m, r, no, e);
    } else {
      OtherEntrySame(d, m, r, no, 0, e, f);
      if Used(d, f) {
        OtherFileSound(d, m, r, no, first, n, bytes, e, f);
      }
    }
  }

  lemma AddedSound(d: Disk, m: Disk, r: Disk, no: nat, first: nat, n: nat, bytes: seq<Byte>, e: seq<Byte>)
    requires FileAdded(d, m, r, no, first, n, bytes, e)
    ensures Sound(r)
  {
    forall f: nat | f < FILES
      ensures DirByte(r, f, 0) in {0, IN_USE, DELETED}
      ensures Used(r, f) ==> FileSound(r, f)
    {
      FileAfterAdding(d, m, r, no, first, n, bytes, e, f);
    }
    forall s: nat | InData(s) && s !in Free(r.bitmap) ensures Owned(r, s) {
      StillOwned(d, m, r, no, first, n, bytes, e, s);
    }
    assert Ready(r);
  }

  lemma AddedFiles(d: Disk, m: Disk, r: Disk, no: nat, first: nat, n: nat, bytes: seq<Byte>, e: seq<Byte>)
    requires FileAdded(d, m, r, no, first, n, bytes, e)
    ensures Files(r) == Files(d)[no := File(e[5..], bytes)]
  {
    forall f: nat | f < FILES ensures FileOnly(d, r, no, File(e[5..], bytes), f) {
      FileAfterAdding(d, m, r, no, first, n, bytes, e, f);
    }
    OneMoreFile(d, r, no, File(e[5..], bytes));
  }

  ghost predicate FileOnly(d: Disk, r: Disk, no: nat, file: File, f: nat) {
    && (Used(r, f) <==> f == no || Used(d, f))
    && (Used(r, f) ==> FileAt(r, f) == if f == no then file else FileAt(d, f))
  }

  lemma OneMoreFile(d: Disk, r: Disk, no: nat, file: File)
    requires no < FILES && forall f: nat :: f < FILES ==> FileOnly(d, r, no, file, f)
    ensures Files(r) == Files(d)[no := file]
  {
    forall f: nat | f < FILES
      ensures f in Files(r) <==> f == no || f in Files(d)
      ensures f in Files(r) ==> Files(r)[f] == if f == no then file else Files(d)[f]
    {
      assert FileOnly(d, r, no, file, f);
    }
  }

  lemma DirectoryKept(d: Disk, m: Disk)
    requires forall s: nat | ROOT <= s < ROOT + 8 :: s in d.image && s in m.image && d.image[s] == m.image[s]
    ensures forall f: nat, k: nat :: f < FILES && k < 16 ==> DirByte(m, f, k) == DirByte(d, f, k)
  {
  }

  lemma AddedToFree(d: Disk, a: Disk, m: Disk, no: nat, first: nat, n: nat, bytes: seq<Byte>)
    requires Ready(d) && first in Free(d.bitmap) && a == Allocate(d, first)
    requires ChainAdded(a, m, no, first, n, bytes)
    ensures NewChain(d, m, no, first, n, bytes) && m.free == d.free - n
  {
    AllocateReady(d, first);
    ChainMembers(m, no, first, n);
    DirectoryKept(d, m);
  }

  lemma EntryIsFor(n: nat, first: Word, name: Name)
    requires n < 0x10000
    ensures EntryFor(Entry(n, first, name), n, first) && Entry(n, first, name)[5..] == name
  {
  }

  /** The free sectors suffice for the file. */
  predicate Fits(d: Disk, bytes: seq<Byte>) {
    FreeNumber(d, 0) < FILES && SectorsFor(|bytes|, d.density.Room()) <= d.free
  }

  lemma ChainInserted(d: Disk, no: nat, first: nat, bytes: seq<Byte>, n: nat, w: Writing)
    requires Ready(d) && no < FILES && first in Free(d.bitmap) && n == SectorsFor(|bytes|, d.density.Room()) <= d.free
    requires w == WriteChain(Allocate(d, first), no, first, bytes)
    ensures w.ok && NewChain(d, w.disk, no, first, n, bytes) && w.disk.free == d.free - n
    ensures SameBut(d.image, w.disk.image, Follow(w.disk, first, n))
  {
    AllocateReady(d, first);
    WriteChainEffect(Allocate(d, first), no, first, bytes, w, n);
    AddedToFree(d, Allocate(d, first), w.disk, no, first, n, bytes);
  }

  lemma InsertAdds(d: Disk, name: Name, bytes: seq<Byte>) returns (m: Disk, first: nat, n: nat, e: seq<Byte>)
    requires Sound(d) && Fits(d, bytes)
    ensures Inserted(d, name, bytes).ok
    ensures FileAdded(d, m, Inserted(d, name, bytes).disk, FreeNumber(d, 0), first, n, bytes, e)
    ensures m.free == d.free - n && e[5..] == name
    ensures SameBut(d.image, m.image, Follow(m, first, n))
    ensures Shaped(m) && Inserted(d, name, bytes).disk == WithBitmap(WithEntry(m, FreeNumber(d, 0), 0, e))
  {
    var no := FreeNumber(d, 0);
    n, first := SectorsFor(|bytes|, d.density.Room()), FoundFree(d.bitmap, 0);
    FoundFreeMeaning(d.bitmap, 0);
    var w := WriteChain(Allocate(d, first), no, first, bytes);
    ChainInserted(d, no, first, bytes, n, w);
    m, e := w.disk, Entry(n, first, name);
    EntryIsFor(n, first, name);
    RecordedByWriting(m, no, 0, e);
    SectorsForIff(|bytes|, d.density.Room(), d.free);
  }

  /** A file that fits is stored with its name under the first unused number; no other file of a sound disk changes. */
  lemma InsertStores(d: Disk, name: Name, bytes: seq<Byte>)
    requires Sound(d) && Fits(d, bytes)
    ensures var r := Inserted(d, name, bytes);
            && r.ok && Sound(r.disk) && r.disk.density == d.density
            && Files(r.disk) == Files(d)[FreeNumber(d, 0) := File(name, bytes)]
            && r.disk.free == d.free - SectorsFor(|bytes|, d.density.Room())
  {
    var m, first, n, e := InsertAdds(d, name, bytes);
    AddedSound(d, m, Inserted(d, name, bytes).disk, FreeNumber(d, 0), first, n, bytes, e);
    AddedFiles(d, m, Inserted(d, name, bytes).disk, FreeNumber(d, 0), first, n, bytes, e);
  }

  /** On a sound disk an insertion fails exactly for files that do not fit, and then changes nothing. */
  lemma InsertOkIff(d: Disk, name: Name, bytes: seq<Byte>)
    requires Sound(d)
    ensures Inserted(d, name, bytes).ok <==> Fits(d, bytes)
    ensures !Fits(d, bytes) ==> Inserted(d, name, bytes).disk == d
  {
    if Fits(d, bytes) {
      InsertStores(d, name, bytes);
    } else if d.free == 0 {
      FoundFreeMeaning(d.bitmap, 0);
    } else {
      SectorsForIff(|bytes|, d.density.Room(), d.free);
    }
  }
}
