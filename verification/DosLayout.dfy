/**
 The Atari DOS disk byte by byte: what the operations read from the sectors of any disk and what they write there,
 stated on the sectors themselves with the numbers of the disk format.
 */
module DosLayout {
  import opened SectorBitmap
  import opened DosDisk
  import opened DosFiles
  import opened DosErasing
  import opened DosReading
  import opened DosRuns
  import opened DosListing

  // ---------- The bitmap ----------

  /** The value of bit k of a byte, counted from the most significant one. */
  function Weight(k: nat): nat
    requires k < 8
    ensures Weight(k) > 0
  {
    [128, 64, 32, 16, 8, 4, 2, 1][k]
  }

  /** The most significant bit of byte 0 stands for sector 0, the next one for sector 1, and so on. */
  predicate Vacant(b: Bitmap, s: nat)
    requires s < 720
  {
    b[s / 8] as nat / Weight(s % 8) % 2 == 1
  }

  lemma BitsAsNumber(f: Byte)
    ensures ((f as bv8) & 128 != 0 <==> f / 128 % 2 == 1) && ((f as bv8) & 64 != 0 <==> f / 64 % 2 == 1)
    ensures ((f as bv8) & 32 != 0 <==> f / 32 % 2 == 1) && ((f as bv8) & 16 != 0 <==> f / 16 % 2 == 1)
    ensures ((f as bv8) & 8 != 0 <==> f / 8 % 2 == 1) && ((f as bv8) & 4 != 0 <==> f / 4 % 2 == 1)
    ensures ((f as bv8) & 2 != 0 <==> f / 2 % 2 == 1) && ((f as bv8) & 1 != 0 <==> f % 2 == 1)
  {
  }

  lemma MaskWeight(k: nat)
    requires k < 8
    ensures (Mask(k), Weight(k)) in [(128 as bv8, 128), (64, 64), (32, 32), (16, 16), (8, 8), (4, 4), (2, 2), (1, 1)]
  {
  }

  lemma MaskBit(x: bv8, m: bv8, w: nat)
    requires (m, w) in [(128 as bv8, 128), (64, 64), (32, 32), (16, 16), (8, 8), (4, 4), (2, 2), (1, 1)]
    ensures w > 0 && (x & m != 0 <==> x as nat / w % 2 == 1)
  {
    ByteRoundTrip(x);
    BitsAsNumber(x as Byte);
  }

  lemma IsFreeIff(b: Bitmap, s: nat)
    requires s < 720
    ensures IsFree(b, s) <==> Vacant(b, s)
  {
    MaskWeight(s % 8);
    MaskBit(b[s / 8], Mask(s % 8), Weight(s % 8));
  }

  lemma AllFreeIff(b: Bitmap)
    ensures forall s: nat | s < 720 :: IsFree(b, s) <==> Vacant(b, s)
    ensures forall s: nat :: s in Free(b) <==> 4 <= s < 720 && Vacant(b, s)
  {
    forall s: nat | s < 720 ensures IsFree(b, s) <==> Vacant(b, s) {
      IsFreeIff(b, s);
    }
  }

  /** The search yields the next marked sector from 4 on, cyclically, or 0 when there is none. */
  lemma SearchMeaning(b: Bitmap, from: nat, found: nat)
    ensures FoundFree(b, from) == found
            <==> (found == 0 && forall s: nat | 4 <= s < 720 :: !Vacant(b, s))
                 || (4 <= found < 720 && Vacant(b, found)
                     && forall s: nat | 4 <= s < 720 && Vacant(b, s) ::
                          if found >= from then s >= from ==> s >= found else s < from && s >= found)
  {
    AllFreeIff(b);
    if from >= 720 {
      assert FirstFree(b, from) == from;
    }
  }

  /** Taking a sector unmarks it alone, giving it back marks it alone; the counts wrap at 16 bits. */
  lemma AllocationMeaning(d: Disk, s: nat, t: nat)
    requires s < 720 && t < 720
    ensures Vacant(Allocate(d, s).bitmap, t) <==> t != s && Vacant(d.bitmap, t)
    ensures Vacant(Release(d, s).bitmap, t) <==> t == s || Vacant(d.bitmap, t)
    ensures Allocate(d, s).free == if d.free == 0 then 65535 else d.free - 1
    ensures Release(d, s).free == if d.free == 65535 then 0 else d.free + 1
  {
    IsFreeIff(d.bitmap, t);
    IsFreeIff(Allocate(d, s).bitmap, t);
    IsFreeIff(Release(d, s).bitmap, t);
    SameBit(s, t);
    ChangedByte(d.bitmap, s, t, Cleared(d.bitmap[s / 8], s % 8));
    ChangedByte(d.bitmap, s, t, Marked(d.bitmap[s / 8], s % 8));
    BitsOfByte(d.bitmap[s / 8], s % 8, t % 8);
  }

  // ---------- Directory entries ----------

  /** The sixteen bytes of entry `no`: eight entries to a sector, from sector 361 on. */
  function RawEntry(d: Disk, no: nat): seq<Byte>
    requires Shaped(d) && no < 64
  {
    d.image[361 + no / 8][no % 8 * 16..no % 8 * 16 + 16]
  }

  function Flag(d: Disk, no: nat): bv8
    requires Shaped(d) && no < 64
  {
    RawEntry(d, no)[0] as bv8
  }

  lemma RawBytes(d: Disk, no: nat)
    requires Shaped(d) && no < 64
    ensures forall k: nat | k < 16 :: DirByte(d, no, k) == RawEntry(d, no)[k]
  {
  }

  lemma FlagBits(f: Byte)
    ensures (f as bv8) & 0x02 != 0 <==> f / 2 % 2 == 1
    ensures (f as bv8) & 0x04 != 0 <==> f / 4 % 2 == 1
    ensures (f as bv8) & 0x10 != 0 <==> f / 16 % 2 == 1
  {
  }

  lemma SkippedBits(f: Byte)
    ensures Skipped(f) <==> (f as bv8) & 0x80 != 0 || (f as bv8) & 0x41 == 0x41
  {
  }

  /** What an entry with any flag is decoded to. */
  lemma EntryMeaning(d: Disk, no: nat, signed: bool, t: seq<int>)
    requires Shaped(d) && no < 64 && t == RawEntry(d, no)
    ensures var e, f := EntryOf(d, no, signed), Flag(d, no);
            && e.no == no && e.name == t[5..16]
            && (e.myDos <==> f & 0x04 != 0)
            && (e.dos10 <==> f & 0x02 == 0 && f & 0x10 == 0)
            && e.size == if f & 0x10 != 0 then -1 else (t[1] + t[2] * 256) * if d.density.Single? then 125 else 253
    ensures var low := if signed && t[3] >= 128 then t[3] - 256 else t[3];
            var high := if signed && t[4] >= 128 then t[4] - 256 else t[4];
            EntryOf(d, no, signed).first == (low + high * 256) % 65536
  {
    RawBytes(d, no);
    FlagBits(DirByte(d, no, 0));
  }

  /** No entry before this one, and not this one, has the flag 0 that ends the listing. */
  ghost predicate Reached(d: Disk, lo: nat, no: nat) {
    forall f: nat :: lo <= f <= no ==> DirByte(d, f, 0) != 0
  }

  lemma {:induction false} ListedFrom(d: Disk, no: nat, signed: bool, e: FileEntry)
    requires no <= 64
    ensures e in Listing(d, no, signed)
            <==> no <= e.no < 64 && e == EntryOf(d, e.no, signed)
                 && Reached(d, no, e.no) && !Skipped(DirByte(d, e.no, 0))
    decreases 64 - no
  {
    if no < 64 {
      ListedFrom(d, no + 1, signed, e);
      ReachedStep(d, no, e.no);
    }
  }

  lemma ReachedStep(d: Disk, lo: nat, no: nat)
    ensures lo <= no ==> (Reached(d, lo, no) <==> DirByte(d, lo, 0) != 0 && Reached(d, lo + 1, no))
  {
  }

  lemma ReachedIff(d: Disk, no: nat)
    requires Shaped(d) && no < 64
    ensures Reached(d, 0, no) <==> forall f: nat | f <= no :: RawEntry(d, f)[0] != 0
  {
    forall f: nat | f <= no ensures DirByte(d, f, 0) == RawEntry(d, f)[0] {
      RawBytes(d, f);
    }
    if forall f: nat | f <= no :: RawEntry(d, f)[0] != 0 {
      forall f: nat | f <= no ensures DirByte(d, f, 0) != 0 {
        assert RawEntry(d, f)[0] != 0;
      }
    }
  }

  /**
   On any disk an entry is listed exactly if no flag up to it is 0, its own has bit 0x80 clear, and not both bits of
   0x41 set.
   */
  lemma ListedIff(d: Disk, signed: bool, no: nat)
    requires Shaped(d)
    ensures (exists e :: e in Listing(d, 0, signed) && e.no == no)
            <==> no < 64 && (forall f: nat | f <= no :: RawEntry(d, f)[0] != 0)
                 && Flag(d, no) & 0x80 == 0 && Flag(d, no) & 0x41 != 0x41
  {
    if e :| e in Listing(d, 0, signed) && e.no == no {
      ListedFrom(d, 0, signed, e);
    }
    if no < 64 {
      ListedFrom(d, 0, signed, EntryOf(d, no, signed));
      ReachedIff(d, no);
      RawBytes(d, no);
      SkippedBits(DirByte(d, no, 0));
    }
  }

  lemma FlagExamples(locked: Byte, open: Byte)
    requires locked == 0x62 && open == 0x43
    ensures (locked as bv8) & 0x80 == 0 && (locked as bv8) & 0x41 != 0x41 && (open as bv8) & 0x41 == 0x41
  {
    assert locked as bv8 == 0x62 && open as bv8 == 0x43;
  }

  /** A locked file, flag 0x62, is listed; a file open for writing, flag 0x43, is not. */
  lemma LockedExample(d: Disk, signed: bool)
    requires Shaped(d) && RawEntry(d, 0)[0] == 0x62 && RawEntry(d, 1)[0] == 0x43
    ensures exists e :: e in Listing(d, 0, signed) && e.no == 0
    ensures !exists e :: e in Listing(d, 0, signed) && e.no == 1
  {
    FlagExamples(RawEntry(d, 0)[0], RawEntry(d, 1)[0]);
    ListedIff(d, signed, 0);
    ListedIff(d, signed, 1);
  }

  /** A new file gets the least entry whose flag is 0 or 0x80; there is none if all 64 have other flags. */
  lemma FreeNumberMeaning(d: Disk, no: nat)
    requires Shaped(d) && no <= 64
    ensures FreeNumber(d, 0) == no
            <==> (forall f: nat | f < no :: RawEntry(d, f)[0] !in {0, 0x80})
                 && (no < 64 ==> RawEntry(d, no)[0] in {0, 0x80})
  {
    forall f: nat | f < 64 ensures DirByte(d, f, 0) == RawEntry(d, f)[0] {
      RawBytes(d, f);
    }
    if forall f: nat | f < no :: RawEntry(d, f)[0] !in {0, 0x80} {
      forall f: nat | f < no ensures DirByte(d, f, 0) !in {0, 0x80} {
        assert RawEntry(d, f)[0] !in {0, 0x80};
      }
    }
  }

  // ---------- What is written ----------

  /** The sector of the bitmap: the count in bytes 3 and 4, the bitmap in bytes 10 to 99, and nothing else changed. */
  ghost predicate BitmapStored(d: Disk, r: Disk)
    requires Shaped(d) && Shaped(r)
  {
    var t := r.image[360];
    && t[3] == r.free % 256 && t[4] == r.free / 256
    && (forall i: nat | i < 90 :: t[10 + i] as bv8 == r.bitmap[i])
    && (forall i: nat | i < |t| && i < |d.image[360]| && i !in {3, 4} && !(10 <= i < 100) :: t[i] == d.image[360][i])
  }

  /** All sectors but 360, that of directory entry `no`, and those of c are as they were. */
  ghost predicate OnlyWritten(d: Disk, r: Disk, no: nat, c: seq<nat>) {
    && r.image.Keys == d.image.Keys
    && forall x | x in d.image && x != 360 && x != 361 + no / 8 && x !in c :: r.image[x] == d.image[x]
  }

  lemma WithBitmapRaw(d: Disk)
    requires Shaped(d)
    ensures BitmapStored(d, WithBitmap(d)) && WithBitmap(d).image.Keys == d.image.Keys
    ensures forall x | x in d.image && x != 360 :: WithBitmap(d).image[x] == d.image[x]
  {
    var t := WithBitmap(d).image[360];
    forall i: nat | i < 90 ensures t[10 + i] as bv8 == d.bitmap[i] {
      ByteRoundTrip(d.bitmap[i]);
      assert t[10 + i] == BitmapBytes(d.bitmap)[i];
    }
  }

  lemma WithEntryRaw(d: Disk, no: nat, at: nat, t: seq<Byte>, f: nat, k: nat)
    requires Shaped(d) && no < 64 && at + |t| <= 16 && f < 64 && k < 16
    ensures var r := WithEntry(d, no, at, t);
            && OnlyWritten(d, r, no, []) && r.image[360] == d.image[360]
            && RawEntry(r, f)[k] == if f == no && at <= k < at + |t| then t[k - at] else RawEntry(d, f)[k]
  {
    RawBytes(d, f);
    RawBytes(WithEntry(d, no, at, t), f);
    EntryBytes(d, no, at, t, f, k);
  }

  lemma InsertedOthers(d: Disk, m: Disk, r: Disk, no: nat, e: seq<Byte>, f: nat)
    requires Shaped(d) && Shaped(r) && Recorded(m, r, no, 0, e) && f < 64 && f != no
    requires forall f: nat, k: nat :: f < FILES && k < 16 ==> DirByte(m, f, k) == DirByte(d, f, k)
    ensures RawEntry(r, f) == RawEntry(d, f)
  {
    RawBytes(r, f);
    RawBytes(d, f);
    forall k: nat | k < 16 ensures RawEntry(r, f)[k] == RawEntry(d, f)[k] {
      assert DirByte(r, f, k) == DirByte(m, f, k) == DirByte(d, f, k);
    }
  }

  /** An insertion that succeeds writes the flag 0x42, the number of sectors, the first sector and the name. */
  lemma InsertedEntry(d: Disk, name: Name, bytes: seq<Byte>, r: Disk, no: nat, t: seq<Byte>)
    requires Sound(d) && Fits(d, bytes) && r == Inserted(d, name, bytes).disk
    requires no == FreeNumber(d, 0) && t == RawEntry(r, no)
    ensures t[0] == 0x42 && t[5..] == name
    ensures WordAt(t, 1) == SectorsFor(|bytes|, d.density.Room()) && WordAt(t, 3) == FoundFree(d.bitmap, 0)
    ensures forall f: nat | f < 64 && f != no :: RawEntry(r, f) == RawEntry(d, f)
  {
    var m, first, n, e := InsertAdds(d, name, bytes);
    EntryRecorded(m, r, no, e);
    InsertedChain(d, name, bytes, r, no);
    RawBytes(r, no);
    forall f: nat | f < 64 && f != no ensures RawEntry(r, f) == RawEntry(d, f) {
      InsertedOthers(d, m, r, no, e, f);
    }
  }

  lemma EntryRecorded(m: Disk, r: Disk, no: nat, e: seq<Byte>)
    requires Shaped(r) && Recorded(m, r, no, 0, e) && no < 64 && |e| == 16
    ensures RawEntry(r, no) == e
  {
    RawBytes(r, no);
  }

  // ---------- Following the links of any disk ----------

  /**
   The link that ends the data of sector s, in the last three bytes, names `next`: in a MyDOS file as a word, its high
   byte first; otherwise by ten bits, behind the six of the file number, which must be that of the entry.
   */
  ghost predicate Link(d: Disk, e: FileEntry, s: Word, next: Word) {
    && s > 0 && s in d.image && |d.image[s]| >= 3
    && var t: seq<int> := d.image[s][|d.image[s]| - 3..];
       if e.myDos then next == t[0] * 256 + t[1] else t[0] / 4 == e.no && next == t[0] % 4 * 256 + t[1]
  }

  /** The sectors c lead from one to the next, and the last one to `next`. */
  ghost predicate LeadsTo(d: Disk, e: FileEntry, c: seq<Word>, next: Word) {
    forall i :: 0 <= i < |c| ==> LinkAt(d, e, c, next, i)
  }

  ghost predicate LinkAt(d: Disk, e: FileEntry, c: seq<Word>, next: Word, i: nat)
    requires i < |c|
  {
    Link(d, e, c[i], Start(c[i + 1..], next))
  }

  /** The sector that stops a reader: one that does not exist, or belongs to another file. */
  ghost predicate Stops(d: Disk, e: FileEntry, s: Word) {
    s > 0 && (s !in d.image || (!e.myDos && |d.image[s]| >= 3 && d.image[s][|d.image[s]| - 3] / 4 != e.no))
  }

  lemma LinkMeaning(d: Disk, e: FileEntry, s: Word, next: Word)
    requires Shaped(d)
    ensures Link(d, e, s, next)
            <==> s > 0 && s in d.image && (e.myDos || OwnerOf(d, s) == e.no) && LinkOf(d, s, e.myDos) == next
    ensures Stops(d, e, s) <==> s > 0 && (s !in d.image || (!e.myDos && OwnerOf(d, s) != e.no))
  {
  }

  lemma TailLeads(d: Disk, e: FileEntry, c: seq<Word>, next: Word)
    requires LeadsTo(d, e, c, next) && c != []
    ensures LeadsTo(d, e, c[1..], next) && Link(d, e, c[0], Start(c[1..], next))
  {
    assert LinkAt(d, e, c, next, 0);
    forall i | 0 <= i < |c[1..]| ensures LinkAt(d, e, c[1..], next, i) {
      assert LinkAt(d, e, c, next, i + 1);
      assert c[1..][i + 1..] == c[i + 2..];
    }
  }

  function Start(c: seq<Word>, next: Word): Word {
    if c == [] then next else c[0]
  }

  /** What is taken from these sectors, one after the other. */
  function Chunks(d: Disk, c: seq<Word>, dos10: bool, signed: bool): seq<Byte>
    requires forall x | x in c :: x in d.image
  {
    if c == [] then [] else Chunk(d, c[0], dos10, signed) + Chunks(d, c[1..], dos10, signed)
  }

  /**
   What is taken from a sector is told by its last byte: so many bytes, none of 128 or more where they are signed.
   In a DOS 1.0 file a byte below 128 means 125 bytes, and one from 128 on that many less 128.
   */
  lemma ChunkMeaning(d: Disk, s: nat, dos10: bool, signed: bool, t: Sector, l: Byte)
    requires Shaped(d) && s in d.image && t == d.image[s] && l == t[|t| - 1]
    ensures var taken := Chunk(d, s, dos10, signed);
            if l < 128 then taken == t[..if dos10 then 125 else l]
            else if signed then taken == []
            else if dos10 then taken == t[..l - 128]
            else if l <= |t| then taken == t[..l]
            else taken == t + seq(l - |t|, _ => 0)
  {
  }

  lemma LeadsInImage(d: Disk, e: FileEntry, c: seq<Word>, next: Word)
    requires LeadsTo(d, e, c, next)
    ensures forall x | x in c :: x > 0 && x in d.image
  {
    forall i | 0 <= i < |c| ensures c[i] > 0 && c[i] in d.image {
      assert LinkAt(d, e, c, next, i);
    }
  }

  lemma ReadOne(d: Disk, e: FileEntry, s: Word, next: Word, n: Word, signed: bool)
    requires Shaped(d) && Link(d, e, s, next) && n > 0
    ensures var rest := ReadChain(d, e, next, n - 1, signed);
            ReadChain(d, e, s, n, signed) == Extracted(rest.ok, Chunk(d, s, e.dos10, signed) + rest.bytes)
  {
    LinkMeaning(d, e, s, next);
  }

  lemma InARow(a: seq<Byte>, b: seq<Byte>, c: seq<Byte>)
    ensures a + (b + c) == a + b + c
  {
  }

  lemma {:induction false} ReadsAlong(d: Disk, e: FileEntry, c: seq<Word>, next: Word, n: Word, signed: bool)
    requires Shaped(d) && LeadsTo(d, e, c, next) && |c| <= n && forall x | x in c :: x in d.image
    ensures var rest := ReadChain(d, e, next, n - |c|, signed);
            ReadChain(d, e, Start(c, next), n, signed)
            == Extracted(rest.ok, Chunks(d, c, e.dos10, signed) + rest.bytes)
    decreases |c|
  {
    if c != [] {
      TailLeads(d, e, c, next);
      ReadOne(d, e, c[0], Start(c[1..], next), n, signed);
      ReadsAlong(d, e, c[1..], next, n - 1, signed);
      InARow(Chunk(d, c[0], e.dos10, signed), Chunks(d, c[1..], e.dos10, signed),
             ReadChain(d, e, next, n - |c|, signed).bytes);
    }
  }

  /**
   Reading n sectors of any chain: it succeeds with the data of all of them, or of those before the link 0; it fails
   at a sector that stops it, with the data before.
   */
  lemma ReadMeaning(d: Disk, e: FileEntry, c: seq<Word>, next: Word, n: Word, signed: bool)
    requires Shaped(d) && LeadsTo(d, e, c, next) && |c| <= n && forall x | x in c :: x in d.image
    requires n == |c| || next == 0 || Stops(d, e, next)
    ensures ReadChain(d, e, Start(c, next), n, signed)
            == Extracted(n == |c| || next == 0, Chunks(d, c, e.dos10, signed))
  {
    ReadsAlong(d, e, c, next, n, signed);
    LinkMeaning(d, e, next, 0);
  }

  /** Disk r is d with the sectors of c marked and counted as free. */
  ghost predicate GivenBack(d: Disk, r: Disk, c: seq<Word>) {
    && r.image == d.image && r.density == d.density && r.free == (d.free + |c|) % 65536
    && forall x: nat | x < 720 :: Vacant(r.bitmap, x) <==> Vacant(d.bitmap, x) || x in c
  }

  lemma GiveBackOne(d: Disk, s: Word)
    requires s < 720
    ensures GivenBack(d, Release(d, s), [s])
  {
    forall x: nat | x < 720 ensures Vacant(Release(d, s).bitmap, x) <==> Vacant(d.bitmap, x) || x == s {
      AllocationMeaning(d, s, x);
    }
  }

  lemma GiveBackMore(d: Disk, mid: Disk, r: Disk, a: seq<Word>, b: seq<Word>)
    requires GivenBack(d, mid, a) && GivenBack(mid, r, b)
    ensures GivenBack(d, r, a + b)
  {
    WrapTwice(d.free, |a|, |b|);
  }

  lemma WrapTwice(x: nat, a: nat, b: nat)
    ensures ((x + a) % 65536 + b) % 65536 == (x + a + b) % 65536
  {
  }

  lemma LeadsOn(d: Disk, mid: Disk, e: FileEntry, c: seq<Word>, next: Word)
    requires mid.image == d.image && LeadsTo(d, e, c, next)
    ensures LeadsTo(mid, e, c, next)
  {
    forall i | 0 <= i < |c| ensures LinkAt(mid, e, c, next, i) {
      assert LinkAt(d, e, c, next, i);
    }
  }

  lemma {:induction false} ReleasesAlong(d: Disk, e: FileEntry, c: seq<Word>, next: Word, n: Word) returns (mid: Disk)
    requires Shaped(d) && LeadsTo(d, e, c, next) && |c| <= n && forall x | x in c :: x < 720
    ensures GivenBack(d, mid, c)
    ensures ReleaseChain(d, e, Start(c, next), n) == ReleaseChain(mid, e, next, n - |c|)
    decreases |c|
  {
    mid := d;
    if c != [] {
      TailLeads(d, e, c, next);
      LinkMeaning(d, e, c[0], Start(c[1..], next));
      assert c[0] in c && forall x | x in c[1..] :: x in c;
      GiveBackOne(d, c[0]);
      LeadsOn(d, Release(d, c[0]), e, c[1..], next);
      mid := ReleasesAlong(Release(d, c[0]), e, c[1..], next, n - 1);
      GiveBackMore(d, Release(d, c[0]), mid, [c[0]], c[1..]);
      assert c == [c[0]] + c[1..];
    }
  }

  /**
   Releasing n sectors of any chain gives back exactly its sectors and finishes, after all of them or at the link 0.
   At a sector that stops it, it gives that one back too and fails; behind the bitmap it goes out of bounds.
   */
  lemma ReleaseMeaning(d: Disk, e: FileEntry, c: seq<Word>, next: Word, n: Word, r: Erasing)
    requires Shaped(d) && LeadsTo(d, e, c, next) && |c| <= n && forall x | x in c :: x < 720
    requires n == |c| || next == 0 || next >= 720 || Stops(d, e, next)
    requires r == ReleaseChain(d, e, Start(c, next), n)
    ensures if n == |c| || next == 0 then r.outcome == Done && GivenBack(d, r.disk, c)
            else if next >= 720 then r.outcome == OutOfBounds && GivenBack(d, r.disk, c)
            else r.outcome == Failed && GivenBack(d, r.disk, c + [next])
  {
    var mid := ReleasesAlong(d, e, c, next, n);
    if n > |c| && 0 < next < 720 {
      LinkMeaning(mid, e, next, 0);
      GiveBackOne(mid, next);
      GiveBackMore(d, mid, Release(mid, next), c, [next]);
    }
  }

  /** In a MyDOS file the link bytes 1 and 5 lead to sector 261. */
  lemma WideLinkExample(d: Disk, e: FileEntry, s: Word, signed: bool)
    requires Shaped(d) && e.myDos && 0 < s && s in d.image
    requires d.image[s][|d.image[s]| - 3..|d.image[s]| - 1] == [1, 5]
    ensures ReadChain(d, e, s, 2, signed)
            == Extracted(true, Chunk(d, s, e.dos10, signed) + Chunk(d, 261, e.dos10, signed))
  {
    var rest := ReadChain(d, e, 261, 1, signed);
    assert d.image[s][|d.image[s]| - 3..|d.image[s]| - 1][0] == 1;
    assert d.image[s][|d.image[s]| - 3..|d.image[s]| - 1][1] == 5;
    assert LinkOf(d, s, true) == 261;
    assert rest == Extracted(true, Chunk(d, 261, e.dos10, signed) + []);
  }

  /** How many sectors are read or released for a size, that of a directory included. */
  lemma SectorCounts()
    ensures SectorsRead(524 * 125, 125) == 524 && SectorsRead(525 * 125, 125) == 0 && SectorsRead(526 * 125, 125) == 1
    ensures SectorsRead(259 * 253, 253) == 259 && SectorsRead(260 * 253, 253) == 0
    ensures SectorsRead(-1, 125) == 524 && SectorsRead(-1, 253) == 259
    ensures SectorsIn(-1, 125) == 0 && SectorsIn(-1, 253) == 0 && SectorsIn(707 * 125, 125) == 707
  {
  }

  // ---------- What an erasure leaves ----------

  lemma EntryKeptRaw(d: Disk, r: Disk, no: nat)
    requires Shaped(d) && Shaped(r) && no < 64 && r.image[361 + no / 8] == d.image[361 + no / 8]
    ensures RawEntry(r, no) == RawEntry(d, no)
  {
  }

  /**
   Whatever the disk, an erasure writes the one byte 0x80 into the directory, and nothing else if it fails. When it
   finishes, it also writes the sector of the bitmap.
   */
  lemma ErasedLayout(d: Disk, e: FileEntry, r: Erasing)
    requires Shaped(d) && e.no < 64 && r == Erased(d, e)
    ensures OnlyWritten(d, r.disk, e.no, [])
    ensures RawEntry(r.disk, e.no) == [0x80] + RawEntry(d, e.no)[1..]
    ensures forall f: nat | f < 64 && f != e.no :: RawEntry(r.disk, f) == RawEntry(d, f)
    ensures if r.outcome == Done then BitmapStored(d, r.disk) else r.disk.image[360] == d.image[360]
  {
    var m := WithEntry(d, e.no, 0, [DELETED]);
    var w := ReleaseChain(m, e, e.first, SectorsIn(e.size, d.density.Room()));
    WithEntryRaw(d, e.no, 0, [DELETED], 0, 0);
    if r.outcome == Done {
      WithBitmapRaw(w.disk);
    }
    forall f: nat | f < 64 ensures RawEntry(r.disk, f) == RawEntry(m, f) {
      EntryKeptRaw(m, r.disk, f);
    }
    forall f: nat | f < 64
      ensures RawEntry(m, f) == if f == e.no then [0x80] + RawEntry(d, f)[1..] else RawEntry(d, f)
    {
      MarkedRaw(d, e.no, f);
    }
  }

  lemma MarkedRaw(d: Disk, no: nat, f: nat)
    requires Shaped(d) && no < 64 && f < 64
    ensures RawEntry(WithEntry(d, no, 0, [DELETED]), f)
            == if f == no then [0x80] + RawEntry(d, f)[1..] else RawEntry(d, f)
  {
    forall k: nat | k < 16
      ensures RawEntry(WithEntry(d, no, 0, [DELETED]), f)[k] == if f == no && k == 0 then 0x80 else RawEntry(d, f)[k]
    {
      WithEntryRaw(d, no, 0, [DELETED], f, k);
    }
  }

  // ---------- What an insertion leaves ----------

  lemma LeadsBefore(d: Disk, e: FileEntry, s: Word, c: seq<Word>, next: Word)
    requires LeadsTo(d, e, c, next) && Link(d, e, s, Start(c, next))
    ensures LeadsTo(d, e, [s] + c, next)
  {
    var all := [s] + c;
    assert all[1..] == c;
    forall i | 0 <= i < |all| ensures LinkAt(d, e, all, next, i) {
      if i > 0 {
        assert LinkAt(d, e, c, next, i - 1);
        assert all[i + 1..] == c[i..];
      }
    }
  }

  /** The chain of a sound file, link by link. */
  lemma {:induction false} FollowLeads(d: Disk, e: FileEntry, s: Word, n: nat, c: seq<Word>)
    requires Shaped(d) && ChainSound(d, e.no, s, n) && !e.myDos && c == Follow(d, s, n)
    ensures LeadsTo(d, e, c, 0)
    ensures forall i :: 0 <= i < n - 1 ==> LengthOf(d, c[i]) == d.density.Room()
    decreases n
  {
    LinkMeaning(d, e, s, NextOf(d, s));
    if n > 1 {
      FollowLeads(d, e, NextOf(d, s), n - 1, c[1..]);
      LeadsBefore(d, e, s, c[1..], 0);
      assert [s] + c[1..] == c;
      assert forall i | 1 <= i < n - 1 :: c[i] == c[1..][i - 1];
    }
  }

  lemma OnlyInserted(d: Disk, m: Disk, r: Disk, no: nat, e: seq<Byte>, c: seq<nat>)
    requires Shaped(d) && Shaped(m) && no < 64 && |e| == 16 && SameBut(d.image, m.image, c)
    requires forall x | x in c :: InData(x)
    requires r == WithBitmap(WithEntry(m, no, 0, e)) && m.density == d.density
    ensures OnlyWritten(d, r, no, c) && BitmapStored(d, r)
  {
    WithEntryRaw(m, no, 0, e, 0, 0);
    WithBitmapRaw(WithEntry(m, no, 0, e));
    assert m.image[360] == d.image[360];
  }

  lemma SoundChainRead(r: Disk, no: nat, e: FileEntry, c: seq<Word>)
    requires Sound(r) && Used(r, no) && e == EntryOf(r, no, false) && c == ChainOf(r, no)
    ensures LeadsTo(r, e, c, 0) && (forall x | x in c :: x in r.image) && Chunks(r, c, false, false) == Bytes(r, no)
    ensures forall i :: 0 <= i < |c| - 1 ==> LengthOf(r, c[i]) == r.density.Room()
  {
    assert FileSound(r, no);
    FirstInData(r, no);
    EntryOfUsed(r, no, false);
    FollowLeads(r, e, First(r, no), Count(r, no), c);
    LeadsInImage(r, e, c, 0);
    ReadMeaning(r, e, c, 0, Count(r, no), false);
    ReadsAll(r, e, First(r, no), Count(r, no), false);
  }

  /** An inserted file is linked sector by sector; all but the last are full, and together they hold its bytes. */
  lemma InsertedChainRaw(d: Disk, name: Name, bytes: seq<Byte>, r: Disk, no: nat, c: seq<Word>, e: FileEntry)
    requires Sound(d) && Fits(d, bytes) && r == Inserted(d, name, bytes).disk && no == FreeNumber(d, 0)
    requires Used(r, no) && c == ChainOf(r, no) && e == EntryOf(r, no, false)
    ensures LeadsTo(r, e, c, 0) && (forall x | x in c :: x in r.image) && Chunks(r, c, false, false) == bytes
    ensures forall i :: 0 <= i < |c| - 1 ==> LengthOf(r, c[i]) == d.density.Room()
  {
    InsertedFile(d, name, bytes, r, no);
    SoundChainRead(r, no, e, c);
  }

  lemma ChainAllocated(r: Disk, no: nat)
    requires Sound(r) && Used(r, no)
    ensures forall x | x in ChainOf(r, no) :: x !in Free(r.bitmap)
  {
    assert FileSound(r, no);
    ChainMembers(r, no, First(r, no), Count(r, no));
  }

  lemma VacancyOf(a: Bitmap, b: Bitmap, c: seq<nat>)
    requires Free(b) + (set s | s in c) == Free(a) && forall s | s in c :: s !in Free(b)
    ensures forall x | x in c :: 4 <= x < 720 && Vacant(a, x)
    ensures forall x: nat | 4 <= x < 720 :: Vacant(b, x) <==> Vacant(a, x) && x !in c
  {
    AllFreeIff(a);
    AllFreeIff(b);
    assert forall x | x in c :: x in Free(b) + (set s | s in c);
    forall x: nat | 4 <= x < 720 ensures Vacant(b, x) <==> Vacant(a, x) && x !in c {
      assert x in Free(b) <==> x in Free(a) && x !in c;
    }
  }

  /** Its sectors, as many as its bytes need, were vacant and are no longer; no other sector changes in that. */
  lemma InsertedVacancy(d: Disk, name: Name, bytes: seq<Byte>, r: Disk, no: nat, c: seq<nat>)
    requires Sound(d) && Fits(d, bytes) && r == Inserted(d, name, bytes).disk && no == FreeNumber(d, 0)
    requires c == ChainOf(r, no)
    ensures |c| == SectorsFor(|bytes|, d.density.Room())
    ensures forall x | x in c :: 4 <= x < 720 && Vacant(d.bitmap, x)
    ensures forall x: nat | 4 <= x < 720 :: Vacant(r.bitmap, x) <==> Vacant(d.bitmap, x) && x !in c
  {
    InsertedFile(d, name, bytes, r, no);
    InsertedChain(d, name, bytes, r, no);
    ChainAllocated(r, no);
    VacancyOf(d.bitmap, r.bitmap, c);
  }

  /** An insertion writes the sectors of the file, the one of its entry, and the bitmap, and no other sector. */
  lemma InsertedLayout(d: Disk, name: Name, bytes: seq<Byte>, r: Disk, no: nat, c: seq<nat>)
    requires Sound(d) && Fits(d, bytes) && r == Inserted(d, name, bytes).disk && no == FreeNumber(d, 0)
    requires c == ChainOf(r, no)
    ensures OnlyWritten(d, r, no, c) && BitmapStored(d, r)
  {
    var m, first, n, e := InsertAdds(d, name, bytes);
    AddedFileSound(d, m, r, no, first, n, bytes, e);
    ChainMembers(m, no, first, n);
    OnlyInserted(d, m, r, no, e, c);
  }

  // ---------- A disk whose free count is wrong ----------

  /** Of the sectors that files can use, only s is vacant. */
  ghost predicate OnlyVacant(b: Bitmap, s: nat) {
    4 <= s < 720 && forall x: nat | 4 <= x < 720 :: Vacant(b, x) <==> x == s
  }

  lemma NothingVacant(d: Disk, s: nat)
    requires OnlyVacant(d.bitmap, s)
    ensures FoundFree(d.bitmap, 0) == s && FoundFree(Allocate(d, s).bitmap, s + 1) == 0
  {
    SearchMeaning(d.bitmap, 0, s);
    forall x: nat | 4 <= x < 720 ensures !Vacant(Allocate(d, s).bitmap, x) {
      AllocationMeaning(d, s, x);
    }
    SearchMeaning(Allocate(d, s).bitmap, s + 1, 0);
  }

  lemma ChainWithoutSectors(a: Disk, no: nat, s: nat, bytes: seq<Byte>)
    requires Shaped(a) && a.density.Single? && no < 64 && s in a.image && 125 < |bytes| <= 250
    requires FoundFree(a.bitmap, s + 1) == 0
    ensures WriteChain(a, no, s, bytes)
            == Writing(false, Put(Allocate(a, 0), s, Packed(125, bytes[..125], no, 0)))
  {
    assert 0 !in a.image;
  }

  lemma ChainFails(d: Disk, name: Name, bytes: seq<Byte>, s: nat, w: Writing)
    requires Shaped(d) && FreeNumber(d, 0) < 64 && |bytes| <= d.free * d.density.Room()
    requires 0 < s < 720 && s == FoundFree(d.bitmap, 0)
    requires w == WriteChain(Allocate(d, s), FreeNumber(d, 0), s, bytes) && !w.ok
    ensures Inserted(d, name, bytes) == w
  {
  }

  lemma TwoTaken(d: Disk, s: nat, no: nat, chunk: seq<Byte>, r: Disk)
    requires 4 <= s < 720 && d.free >= 2 && no < 64 && |chunk| == 125
    requires r == Put(Allocate(Allocate(d, s), 0), s, Packed(125, chunk, no, 0))
    ensures r.free == d.free - 2 && !Vacant(r.bitmap, s) && r.image == d.image[s := chunk + [no * 4, 0, 125]]
  {
    AllocationMeaning(d, s, s);
    AllocationMeaning(Allocate(d, s), 0, s);
    assert Packed(125, chunk, no, 0) == chunk + [no * 4, 0, 125];
  }

  /**
   When the count says that there is room but only sector s is vacant, a file of two sectors fails after its first
   sector has been written, with both sectors counted as taken and nothing in the directory.
   */
  lemma WrongCountExample(d: Disk, name: Name, bytes: seq<Byte>, s: nat, no: nat, r: Writing)
    requires d.density.Single? && d.free >= 2 && no == FreeNumber(d, 0) && no < 64 && 125 < |bytes| <= 250
    requires Shaped(d) && OnlyVacant(d.bitmap, s) && r == Inserted(d, name, bytes)
    ensures !r.ok && r.disk.free == d.free - 2 && !Vacant(r.disk.bitmap, s)
    ensures r.disk.image == d.image[s := bytes[..125] + [no * 4, 0, 125]]
  {
    NothingVacant(d, s);
    ChainWithoutSectors(Allocate(d, s), no, s, bytes);
    ChainFails(d, name, bytes, s, WriteChain(Allocate(d, s), no, s, bytes));
    TwoTaken(d, s, no, bytes[..125], r.disk);
  }

  lemma ChainSucceeds(d: Disk, name: Name, bytes: seq<Byte>, s: nat, w: Writing)
    requires Shaped(d) && FreeNumber(d, 0) < 64 && |bytes| <= d.free * d.density.Room()
    requires 0 < s < 720 && s == FoundFree(d.bitmap, 0)
    requires w == WriteChain(Allocate(d, s), FreeNumber(d, 0), s, bytes) && w.ok
    ensures Inserted(d, name, bytes).ok && Inserted(d, name, bytes).disk.free == w.disk.free
  {
  }

  lemma EmptyChain(a: Disk, no: nat, s: nat, bytes: seq<Byte>)
    requires Shaped(a) && no < 64 && s in a.image && bytes == []
    ensures WriteChain(a, no, s, bytes).ok && WriteChain(a, no, s, bytes).disk.free == a.free
  {
  }

  /** When the count says that there is no room, an empty file still goes in, and the count starts over from above. */
  lemma EmptyFileExample(d: Disk, name: Name, bytes: seq<Byte>, s: nat, r: Writing)
    requires Shaped(d) && d.free == 0 && FreeNumber(d, 0) < 64 && s == FoundFree(d.bitmap, 0) && 4 <= s < 720
    requires bytes == [] && r == Inserted(d, name, bytes)
    ensures r.ok && r.disk.free == 65535
  {
    EmptyChain(Allocate(d, s), FreeNumber(d, 0), s, bytes);
    ChainSucceeds(d, name, bytes, s, WriteChain(Allocate(d, s), FreeNumber(d, 0), s, bytes));
    AllocationMeaning(d, s, s);
  }
}
