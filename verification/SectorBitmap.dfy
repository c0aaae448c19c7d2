/** The bitmap of free sectors of an Atari disk: one bit per sector, the most significant bit of a byte first. */
module SectorBitmap {

  /** 90 bytes, for the sectors 0 to 719. The first four belong to no file. */
  type Bitmap = b: seq<bv8> | |b| == 90 witness seq(90, _ => 0)

  const SECTORS := 720
  const FIRST_SECTOR := 4

  function Mask(k: nat): bv8
    requires k < 8
  {
    if k == 0 then 128 else if k == 1 then 64 else if k == 2 then 32 else if k == 3 then 16
    else if k == 4 then 8 else if k == 5 then 4 else if k == 6 then 2 else 1
  }

  predicate Bit(x: bv8, k: nat)
    requires k < 8
  {
    x & Mask(k) != 0
  }

  predicate IsFree(b: Bitmap, s: nat)
    requires s < SECTORS
  {
    Bit(b[s / 8], s % 8)
  }

  function Cleared(x: bv8, k: nat): bv8
    requires k < 8
  {
    x & !Mask(k)
  }

  function Marked(x: bv8, k: nat): bv8
    requires k < 8
  {
    x | Mask(k)
  }

  function Allocated(b: Bitmap, s: nat): Bitmap
    requires s < SECTORS
  {
    b[s / 8 := Cleared(b[s / 8], s % 8)]
  }

  function Released(b: Bitmap, s: nat): Bitmap
    requires s < SECTORS
  {
    b[s / 8 := Marked(b[s / 8], s % 8)]
  }

  /** The sectors that a search can find. */
  ghost function Free(b: Bitmap): (r: set<nat>)
    ensures forall s: nat :: s in r <==> FIRST_SECTOR <= s < SECTORS && IsFree(b, s)
  {
    set s: nat | FIRST_SECTOR <= s < SECTORS && IsFree(b, s)
  }

  lemma BitsOfByte(x: bv8, k: nat, j: nat)
    requires k < 8 && j < 8
    ensures Bit(Cleared(x, k), j) <==> j != k && Bit(x, j)
    ensures Bit(Marked(x, k), j) <==> j == k || Bit(x, j)
  {
  }

  lemma SameBit(s: nat, t: nat)
    ensures s == t <==> s / 8 == t / 8 && s % 8 == t % 8
  {
  }

  lemma ChangedByte(b: Bitmap, s: nat, t: nat, x: bv8)
    requires s < SECTORS && t < SECTORS
    ensures IsFree(b[s / 8 := x], t) <==> if s / 8 == t / 8 then Bit(x, t % 8) else IsFree(b, t)
  {
  }

  /** Allocating a sector takes it, and no other, out of the free ones; releasing it adds it, and no other. */
  lemma FreeAfter(b: Bitmap, s: nat)
    requires FIRST_SECTOR <= s < SECTORS
    ensures Free(Allocated(b, s)) == Free(b) - {s}
    ensures Free(Released(b, s)) == Free(b) + {s}
  {
    forall t: nat | t < SECTORS
      ensures IsFree(Allocated(b, s), t) <==> t != s && IsFree(b, t)
      ensures IsFree(Released(b, s), t) <==> t == s || IsFree(b, t)
    {
      SameBit(s, t);
      ChangedByte(b, s, t, Cleared(b[s / 8], s % 8));
      ChangedByte(b, s, t, Marked(b[s / 8], s % 8));
      BitsOfByte(b[s / 8], s % 8, t % 8);
    }
  }

  /** The least free sector from `from` on, or `SECTORS`. */
  function FirstFree(b: Bitmap, from: nat): (r: nat)
    ensures if r < SECTORS then from <= r && IsFree(b, r) else r == SECTORS || r == from
    ensures forall s: nat :: from <= s < r && s < SECTORS ==> !IsFree(b, s)
    decreases SECTORS - from
  {
    if from >= SECTORS || IsFree(b, from) then from else FirstFree(b, from + 1)
  }

  /** The search that starts over from the beginning once, unless it began there; 0 when it finds nothing. */
  function FoundFree(b: Bitmap, from: nat): nat {
    var r := FirstFree(b, if from < FIRST_SECTOR then FIRST_SECTOR else from);
    if r < SECTORS then r
    else if from == 0 || FirstFree(b, FIRST_SECTOR) >= SECTORS then 0
    else FirstFree(b, FIRST_SECTOR)
  }

  /** The search finds a free sector whenever there is one, and from the beginning the least one. */
  lemma FoundFreeMeaning(b: Bitmap, from: nat)
    ensures if Free(b) == {} then FoundFree(b, from) == 0 else FoundFree(b, from) in Free(b)
    ensures forall s :: s in Free(b) && s < FoundFree(b, from) ==> s < from
  {
    if s :| s in Free(b) {
      assert IsFree(b, s);
    }
  }

  lemma {:induction false} FewerThan(r: set<nat>, n: nat)
    requires forall s | s in r :: s < n
    ensures |r| <= n
  {
    if n > 0 {
      FewerThan(r - {n - 1}, n - 1);
    }
  }

  lemma FreeBounded(b: Bitmap)
    ensures |Free(b)| <= SECTORS
  {
    FewerThan(Free(b), SECTORS);
  }
}
