/**
 The disk of the Atari DOS file system: sectors, a root directory of 64 entries, files as chains of sectors, and the
 bitmap of free sectors. What inserting, reading and erasing a file do to it, and what they keep.
 */
module DosDisk {
  import opened SectorBitmap

  type Byte = b: int | 0 <= b < 0x100
  type Word = w: int | 0 <= w < 0x10000
  type Sector = seq<Byte>
  type Image = map<nat, Sector>

  const VTOC := 360
  const ROOT := 361
  const FILES := 64
  const IN_USE: Byte := 0x42
  const DELETED: Byte := 0x80

  datatype Density = Single | Double {
    function BytesPerSector(): nat { if Single? then 128 else 256 }
    /** The bytes of a sector that hold data; the last three hold file number, next sector and length. */
    function Room(): nat { BytesPerSector() - 3 }
  }

  /** The sectors, and what the program holds in memory: the bitmap and the number of free sectors. */
  datatype Disk = Disk(density: Density, image: Image, bitmap: Bitmap, free: Word)

  ghost predicate Shaped(d: Disk) {
    && (forall s | s in d.image :: 1 <= s <= SECTORS && |d.image[s]| == d.density.BytesPerSector())
    && forall s: nat | FIRST_SECTOR <= s < SECTORS :: s in d.image
  }

  /** The sectors that files can use: not the boot sectors, the sector of the bitmap or the directory. */
  predicate InData(s: nat) {
    FIRST_SECTOR <= s < SECTORS && !(VTOC <= s < ROOT + 8)
  }

  // ---------- Fields of sectors and directory entries ----------

  function At(d: Disk, s: nat, k: nat): Byte {
    if s in d.image && k < |d.image[s]| then d.image[s][k] else 0
  }

  function OwnerOf(d: Disk, s: nat): nat {
    At(d, s, d.density.Room()) / 4
  }

  function NextOf(d: Disk, s: nat): nat {
    At(d, s, d.density.Room()) % 4 * 256 + At(d, s, d.density.Room() + 1)
  }

  function LengthOf(d: Disk, s: nat): nat {
    At(d, s, d.density.Room() + 2)
  }

  function Payload(d: Disk, s: nat): seq<Byte> {
    if s in d.image && LengthOf(d, s) <= |d.image[s]| then d.image[s][..LengthOf(d, s)] else []
  }

  function DirByte(d: Disk, no: nat, k: nat): Byte {
    At(d, ROOT + no / 8, no % 8 * 16 + k)
  }

  predicate Used(d: Disk, no: nat) {
    no < FILES && DirByte(d, no, 0) == IN_USE
  }

  function Count(d: Disk, no: nat): nat {
    DirByte(d, no, 1) + DirByte(d, no, 2) * 256
  }

  function First(d: Disk, no: nat): nat {
    DirByte(d, no, 3) + DirByte(d, no, 4) * 256
  }

  // ---------- Chains ----------

  /** The n sectors from s on. */
  function Follow(d: Disk, s: nat, n: nat): (c: seq<nat>)
    ensures |c| == n
    decreases n
  {
    if n == 0 then [] else [s] + Follow(d, NextOf(d, s), n - 1)
  }

  /** The bytes they hold. */
  function Gather(d: Disk, s: nat, n: nat): seq<Byte>
    decreases n
  {
    if n == 0 then [] else Payload(d, s) + Gather(d, NextOf(d, s), n - 1)
  }

  /** A chain of n allocated sectors of file `no`, all full but the last one, which ends the chain. */
  ghost predicate ChainSound(d: Disk, no: nat, s: nat, n: nat)
    decreases n
  {
    && n > 0
    && InData(s) && s !in Free(d.bitmap) && OwnerOf(d, s) == no
    && (if n == 1 then LengthOf(d, s) <= d.density.Room() && NextOf(d, s) == 0
        else LengthOf(d, s) == d.density.Room() && ChainSound(d, no, NextOf(d, s), n - 1))
  }

  lemma {:induction false} ChainMembers(d: Disk, no: nat, s: nat, n: nat)
    requires ChainSound(d, no, s, n)
    ensures forall x | x in Follow(d, s, n) :: InData(x) && x !in Free(d.bitmap) && OwnerOf(d, x) == no
    decreases n
  {
    if n > 1 {
      ChainMembers(d, no, NextOf(d, s), n - 1);
    }
  }

  /** Sector x is the same in both disks and not free in the second. */
  ghost predicate Untouched(d: Disk, r: Disk, x: nat) {
    x in d.image && x in r.image && d.image[x] == r.image[x] && x !in Free(r.bitmap)
  }

  lemma SectorFrame(d: Disk, r: Disk, x: nat)
    requires Untouched(d, r, x) && r.density == d.density
    ensures OwnerOf(r, x) == OwnerOf(d, x) && NextOf(r, x) == NextOf(d, x) && LengthOf(r, x) == LengthOf(d, x)
    ensures Payload(r, x) == Payload(d, x)
  {
  }

  /** A chain whose sectors are untouched stays the chain it was. */
  lemma {:induction false} ChainFrame(d: Disk, r: Disk, no: nat, s: nat, n: nat)
    requires ChainSound(d, no, s, n) && r.density == d.density
    requires forall x | x in Follow(d, s, n) :: Untouched(d, r, x)
    ensures ChainSound(r, no, s, n) && Follow(r, s, n) == Follow(d, s, n) && Gather(r, s, n) == Gather(d, s, n)
    decreases n
  {
    assert s in Follow(d, s, n);
    SectorFrame(d, r, s);
    if n > 1 {
      assert forall x | x in Follow(d, NextOf(d, s), n - 1) :: x in Follow(d, s, n);
      ChainFrame(d, r, no, NextOf(d, s), n - 1);
    }
  }

  /** The number of sectors for so many bytes; an empty file has one sector. */
  function SectorsFor(length: nat, room: nat): (n: nat)
    requires room > 0
    ensures n > 0
  {
    if length <= room then 1 else 1 + SectorsFor(length - room, room)
  }

  lemma {:induction false} SectorsForIff(length: nat, room: nat, k: nat)
    requires room > 0 && k > 0
    ensures SectorsFor(length, room) <= k <==> length <= k * room
  {
    if length > room {
      if k > 1 {
        SectorsForIff(length - room, room, k - 1);
        assert (k - 1) * room == k * room - room;
      }
    } else {
      assert k * room >= room;
    }
  }

  // ---------- Writing a chain ----------

  /** A finished step, or one that a sector access made fail, with the disk it left. */
  datatype Writing = Writing(ok: bool, disk: Disk)

  function Allocate(d: Disk, s: nat): Disk
    requires s < SECTORS
  {
    d.(bitmap := Allocated(d.bitmap, s), free := (d.free + 0xFFFF) % 0x10000)
  }

  function Release(d: Disk, s: nat): Disk
    requires s < SECTORS
  {
    d.(bitmap := Released(d.bitmap, s), free := (d.free + 1) % 0x10000)
  }

  function Put(d: Disk, s: nat, data: Sector): Disk {
    d.(image := d.image[s := data])
  }

  /** A sector of file `no`. The next sector is below 1024, so the `|` of its high part and `no * 4` is their sum. */
  function Packed(room: nat, chunk: seq<Byte>, no: nat, next: nat): (r: Sector)
    requires |chunk| <= room < 256 && no < FILES && next < 1024
    ensures |r| == room + 3
  {
    chunk + seq(room - |chunk|, _ => 0) + [next / 256 + no * 4, next % 256, |chunk|]
  }

  function WriteChain(d: Disk, no: nat, s: nat, bytes: seq<Byte>): (r: Writing)
    requires Shaped(d) && no < FILES
    ensures Shaped(r.disk) && r.disk.density == d.density
    decreases |bytes|
  {
    var room := d.density.Room();
    var size := if |bytes| < room then |bytes| else room;
    var next := if size == |bytes| then 0 else FoundFree(d.bitmap, s + 1);
    var mid := if size == |bytes| then d else Allocate(d, next);
    if s !in mid.image then Writing(false, mid)
    else if size == |bytes| then Writing(true, Put(mid, s, Packed(room, bytes[..size], no, next)))
    else WriteChain(Put(mid, s, Packed(room, bytes[..size], no, next)), no, next, bytes[size..])
  }

  /** The free sectors are those the bitmap and the count say, and are all usable. */
  ghost predicate Ready(d: Disk) {
    Shaped(d) && d.free == |Free(d.bitmap)| && forall s | s in Free(d.bitmap) :: InData(s)
  }

  lemma PutPacked(d: Disk, s: nat, chunk: seq<Byte>, no: nat, next: nat)
    requires Shaped(d) && s in d.image && |chunk| <= d.density.Room() && no < FILES && next < 1024
    ensures var r := Put(d, s, Packed(d.density.Room(), chunk, no, next));
            && Shaped(r) && r.image.Keys == d.image.Keys
            && OwnerOf(r, s) == no && NextOf(r, s) == next && LengthOf(r, s) == |chunk| && Payload(r, s) == chunk
  {
    var data := Packed(d.density.Room(), chunk, no, next);
    assert data[..|chunk|] == chunk;
    assert data[d.density.Room()] == next / 256 + no * 4;
  }

  lemma AllocateReady(d: Disk, s: nat)
    requires Ready(d) && s in Free(d.bitmap)
    ensures Ready(Allocate(d, s)) && Free(Allocate(d, s).bitmap) == Free(d.bitmap) - {s}
    ensures Allocate(d, s).free == d.free - 1
  {
    FreeAfter(d.bitmap, s);
  }

  ghost predicate SameBut(d: Image, r: Image, c: seq<nat>) {
    r.Keys == d.Keys && forall x | x in d && x !in c :: r[x] == d[x]
  }

  /** The free sectors without the chain c, which starts at the allocated sector s. */
  ghost predicate Taken(free: set<nat>, rest: set<nat>, s: nat, c: seq<nat>) {
    && (forall x :: x in rest <==> x in free && x !in c)
    && (forall x | x in c :: x == s || x in free)
  }

  /** Disk r is d with a chain of n sectors for these bytes written from s on. */
  ghost predicate ChainAdded(d: Disk, r: Disk, no: nat, s: nat, n: nat, bytes: seq<Byte>) {
    && Ready(r) && r.density == d.density && r.free == d.free - (n - 1)
    && ChainSound(r, no, s, n) && Gather(r, s, n) == bytes
    && SameBut(d.image, r.image, Follow(r, s, n))
    && Taken(Free(d.bitmap), Free(r.bitmap), s, Follow(r, s, n))
  }

  lemma LastSector(d: Disk, no: nat, s: nat, bytes: seq<Byte>)
    requires Ready(d) && no < FILES && InData(s) && s !in Free(d.bitmap) && |bytes| <= d.density.Room()
    ensures var w := WriteChain(d, no, s, bytes);
            w.ok && ChainAdded(d, w.disk, no, s, 1, bytes)
  {
    assert bytes[..|bytes|] == bytes;
    PutPacked(d, s, bytes, no, 0);
    var r := Put(d, s, Packed(d.density.Room(), bytes, no, 0));
    assert Follow(r, s, 1) == [s];
    assert Gather(r, s, 1) == Payload(r, s) + [];
  }

  /** Sector s is written and the next one allocated. */
  function Linked(d: Disk, no: nat, s: nat, chunk: seq<Byte>, next: nat): Disk
    requires |chunk| <= d.density.Room() && no < FILES && next < SECTORS
  {
    Put(Allocate(d, next), s, Packed(d.density.Room(), chunk, no, next))
  }

  /** Disk mid is d with the chunk in sector s, and the sector `next` allocated to follow it. */
  ghost predicate SectorLinked(d: Disk, mid: Disk, no: nat, s: nat, chunk: seq<Byte>, next: nat) {
    && Ready(mid) && mid.density == d.density
    && SameBut(d.image, mid.image, [s])
    && Free(mid.bitmap) == Free(d.bitmap) - {next}
    && mid.free == d.free - 1
    && OwnerOf(mid, s) == no && NextOf(mid, s) == next && LengthOf(mid, s) == |chunk| && Payload(mid, s) == chunk
  }

  lemma LinkedReady(d: Disk, no: nat, s: nat, chunk: seq<Byte>, next: nat)
    requires Ready(d) && no < FILES && InData(s) && |chunk| <= d.density.Room() && next in Free(d.bitmap)
    ensures SectorLinked(d, Linked(d, no, s, chunk, next), no, s, chunk, next)
  {
    AllocateReady(d, next);
    PutPacked(Allocate(d, next), s, chunk, no, next);
  }

  lemma OneMoreInChain(r: Disk, no: nat, s: nat, next: nat, n: nat)
    requires ChainSound(r, no, next, n) && InData(s) && s !in Free(r.bitmap)
    requires OwnerOf(r, s) == no && NextOf(r, s) == next && LengthOf(r, s) == r.density.Room()
    ensures ChainSound(r, no, s, n + 1) && Follow(r, s, n + 1) == [s] + Follow(r, next, n)
    ensures Gather(r, s, n + 1) == Payload(r, s) + Gather(r, next, n)
  {
  }

  lemma OneMoreTaken(free: set<nat>, rest: set<nat>, s: nat, next: nat, c: seq<nat>)
    requires s !in free && next in free && Taken(free - {next}, rest, next, c) && next in c
    ensures Taken(free, rest, s, [s] + c) && s !in c
  {
  }

  lemma OneMoreSame(d: Image, mid: Image, r: Image, s: nat, c: seq<nat>)
    requires SameBut(d, mid, [s]) && SameBut(mid, r, c)
    ensures SameBut(d, r, [s] + c)
  {
  }

  lemma OneMoreSector(
    d: Disk, mid: Disk, r: Disk, no: nat, s: nat, next: nat, n: nat, chunk: seq<Byte>, rest: seq<Byte>)
    requires Ready(d) && InData(s) && s !in Free(d.bitmap) && next in Free(d.bitmap)
    requires SectorLinked(d, mid, no, s, chunk, next) && |chunk| == d.density.Room()
    requires ChainAdded(mid, r, no, next, n, rest)
    ensures ChainAdded(d, r, no, s, n + 1, chunk + rest)
  {
    OneMoreTaken(Free(d.bitmap), Free(r.bitmap), s, next, Follow(r, next, n));
    OneMoreSame(d.image, mid.image, r.image, s, Follow(r, next, n));
    SectorFrame(mid, r, s);
    OneMoreInChain(r, no, s, next, n);
  }

  lemma RestAdded(d: Disk, mid: Disk, r: Disk, no: nat, s: nat, next: nat, n: nat, bytes: seq<Byte>)
    requires Ready(d) && InData(s) && s !in Free(d.bitmap) && next in Free(d.bitmap) && |bytes| > d.density.Room()
    ensures SectorLinked(d, mid, no, s, bytes[..d.density.Room()], next)
            && ChainAdded(mid, r, no, next, n, bytes[d.density.Room()..])
            ==> ChainAdded(d, r, no, s, n + 1, bytes)
  {
    var chunk, rest := bytes[..d.density.Room()], bytes[d.density.Room()..];
    if SectorLinked(d, mid, no, s, chunk, next) && ChainAdded(mid, r, no, next, n, rest) {
      assert bytes == chunk + rest;
      OneMoreSector(d, mid, r, no, s, next, n, chunk, rest);
    }
  }

  lemma WriteChainStep(d: Disk, no: nat, s: nat, bytes: seq<Byte>, w: Writing) returns (mid: Disk, next: nat)
    requires Ready(d) && no < FILES && InData(s) && |bytes| > d.density.Room() && d.free > 0
    requires w == WriteChain(d, no, s, bytes)
    ensures next in Free(d.bitmap) && SectorLinked(d, mid, no, s, bytes[..d.density.Room()], next)
    ensures Ready(mid) && mid.density == d.density && mid.free == d.free - 1
    ensures InData(next) && next !in Free(mid.bitmap)
    ensures w == WriteChain(mid, no, next, bytes[d.density.Room()..]) && next == FoundFree(d.bitmap, s + 1)
  {
    next := FoundFree(d.bitmap, s + 1);
    FoundFreeMeaning(d.bitmap, s + 1);
    mid := Linked(d, no, s, bytes[..d.density.Room()], next);
    LinkedReady(d, no, s, bytes[..d.density.Room()], next);
  }

  /** Writing a file into enough free sectors adds a chain that holds its bytes, and changes no other sector. */
  lemma {:induction false} WriteChainEffect(d: Disk, no: nat, s: nat, bytes: seq<Byte>, w: Writing, n: nat)
    requires Ready(d) && no < FILES && InData(s) && s !in Free(d.bitmap)
    requires n == SectorsFor(|bytes|, d.density.Room()) <= d.free + 1
    requires w == WriteChain(d, no, s, bytes)
    ensures w.ok && ChainAdded(d, w.disk, no, s, n, bytes)
    decreases n
  {
    if n == 1 {
      LastSector(d, no, s, bytes);
    } else {
      var rest := bytes[d.density.Room()..];
      var mid, next := WriteChainStep(d, no, s, bytes, w);
      WriteChainEffect(mid, no, next, rest, w, n - 1);
      RestAdded(d, mid, w.disk, no, s, next, n - 1, bytes);
    }
  }
}
