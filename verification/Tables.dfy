/**
 The two numbered tables of disk images on their own: total tables from slot numbers to images, and what
 mounting, unmounting and swapping mean for them. Nothing here depends on how the settings store encodes them.
 */
module Tables {
  import opened SettingsStore

  const NUM_RECENT_FILES := 10

  /** Slots that hold nothing read as NO_IMAGE, so a table has an entry for every number. */
  type Table = t: imap<int, ImageSettings> | forall n :: n in t
    ghost witness imap n: int | true :: NO_IMAGE

  ghost predicate Occupied(t: Table, slot: int) {
    t[slot].fileName != ""
  }

  // ---------- The recent images ----------

  /** The first slot from `slot` on, up to 10, that holds the name; 11 if there is none. */
  ghost function FirstSlot(t: Table, name: string, slot: int): int
    requires 1 <= slot <= 11
    decreases 11 - slot
  {
    if slot == 11 || t[slot].fileName == name then slot else FirstSlot(t, name, slot + 1)
  }

  /** Extends a run of empty slots k+1, k+2, ... as far as slot 9. */
  ghost function FreeRun(t: Table, k: int): int
    requires 0 <= k <= 9
    decreases 9 - k
  {
    if k < 9 && !Occupied(t, k + 1) then FreeRun(t, k + 1) else k
  }

  /** The slot chosen for a new name. */
  ghost function FreeSlot(t: Table): int {
    if Occupied(t, 11) then 10 else FreeRun(t, 0)
  }

  /** Slots lo to hi emptied. */
  ghost function Cleared(t: Table, lo: int, hi: int): Table {
    imap n: int | true :: if lo <= n <= hi then NO_IMAGE else t[n]
  }

  lemma ClearedStep(t: Table, lo: int)
    ensures lo > 9 ==> Cleared(t, lo, 9) == t
    ensures lo <= 9 ==> Cleared(t[lo := NO_IMAGE], lo + 1, 9) == Cleared(t, lo, 9)
  {
  }

  /** The recent images after an image has been mounted. */
  ghost function Remember(t: Table, image: ImageSettings): Table {
    var s := FirstSlot(t, image.fileName, 1);
    if image.fileName == "" then t
    else if s <= 10 then Cleared(t, s, 9)[9 := image]
    else t[FreeSlot(t) := image]
  }

  /** The recent images after the image in drive `no` has been unmounted. */
  ghost function Forget(t: Table, no: int): Table {
    t[no := NO_IMAGE][0 := NO_IMAGE]
  }

  lemma {:induction false} FirstSlotIsLeast(t: Table, name: string, slot: int)
    requires 1 <= slot <= 11
    ensures var s := FirstSlot(t, name, slot);
            && slot <= s <= 11
            && (s <= 10 ==> t[s].fileName == name)
            && forall k :: slot <= k < s ==> t[k].fileName != name
    decreases 11 - slot
  {
    if slot < 11 && t[slot].fileName != name {
      FirstSlotIsLeast(t, name, slot + 1);
    }
  }

  /** k ends the run of empty slots that starts at slot 1. */
  ghost predicate EndsFreeRun(t: Table, k: int) {
    && 0 <= k <= 9
    && (forall j :: 1 <= j <= k ==> !Occupied(t, j))
    && (k < 9 ==> Occupied(t, k + 1))
  }

  lemma {:induction false} FreeRunEnds(t: Table, k: int)
    requires 0 <= k <= 9 && forall j :: 1 <= j <= k ==> !Occupied(t, j)
    ensures EndsFreeRun(t, FreeRun(t, k))
    decreases 9 - k
  {
    if k < 9 && !Occupied(t, k + 1) {
      FreeRunEnds(t, k + 1);
    }
  }

  /** A new name goes to the largest k in 0..9 such that slots 1..k are all empty. */
  lemma NewNamePlacement(t: Table, k: int)
    requires !Occupied(t, 11)
    ensures FreeSlot(t) == k <==> EndsFreeRun(t, k)
  {
    FreeRunEnds(t, 0);
  }

  /** A slot outside the writable range 0..9 is empty; no name occurs twice in slots lo..9. */
  ghost predicate DistinctFrom(t: Table, lo: nat) {
    && (forall n :: n < 0 || n >= NUM_RECENT_FILES ==> !Occupied(t, n))
    && (forall i, j :: lo <= i < j <= 9 && Occupied(t, i) ==> t[i].fileName != t[j].fileName)
  }

  /** What every run of mounts and unmounts keeps: slot 0 may repeat a name of the others. */
  ghost predicate RecentOk(t: Table) {
    DistinctFrom(t, 1)
  }

  lemma ForgetKeepsOk(t: Table, no: int)
    requires RecentOk(t)
    ensures RecentOk(Forget(t, no))
  {
    forall n | n < 0 || n >= NUM_RECENT_FILES ensures !Occupied(Forget(t, no), n) {
      assert !Occupied(t, n);
    }
    forall i, j | 1 <= i < j <= 9 && Occupied(Forget(t, no), i)
      ensures Forget(t, no)[i].fileName != Forget(t, no)[j].fileName
    {
      assert Occupied(t, i);
    }
  }

  /** A name not listed yet takes the slot that ends the free run; a name is overwritten only in slot 0. */
  lemma RememberNewName(t: Table, image: ImageSettings, k: int)
    requires RecentOk(t) && image.fileName != "" && EndsFreeRun(t, k)
    requires forall n | 1 <= n <= 9 :: t[n].fileName != image.fileName
    ensures Remember(t, image) == t[k := image]
    ensures Occupied(t, k) ==> k == 0
  {
    FirstSlotIsLeast(t, image.fileName, 1);
    assert !Occupied(t, 10) && !Occupied(t, 11);
    NewNamePlacement(t, k);
  }

  /** A name already in slot s moves to slot 9, where it stays unique, and slots s to 8 become empty. */
  lemma RememberKnownName(t: Table, image: ImageSettings, s: int)
    requires RecentOk(t) && image.fileName != "" && 1 <= s <= 9 && t[s].fileName == image.fileName
    ensures Remember(t, image) == Cleared(t, s, 8)[9 := image]
    ensures forall n :: 1 <= n <= 9 && Remember(t, image)[n].fileName == image.fileName ==> n == 9
  {
    FirstSlotIsLeast(t, image.fileName, 1);
    var f := FirstSlot(t, image.fileName, 1);
    assert Occupied(t, f);
    assert f == s;
  }

  /** The slot s holds the name, and no slot from 1 to s - 1 does. */
  ghost predicate LeastWithName(t: Table, name: string, s: int) {
    t[s].fileName == name && forall n :: 1 <= n < s ==> t[n].fileName != name
  }

  /**
   In any table: a name found in slots 1 to 10 goes to slot 9, and the slots between are emptied; another name goes
   to slot 10 if slot 11 is in use, and else to the end of the free run.
   */
  lemma RememberAny(t: Table, image: ImageSettings, s: int)
    requires image.fileName != ""
    ensures 1 <= s <= 10 && LeastWithName(t, image.fileName, s)
            ==> Remember(t, image)
                == imap n: int | true :: if n == 9 then image else if s <= n <= 8 then NO_IMAGE else t[n]
    ensures 0 <= s <= 10 && (forall n :: 1 <= n <= 10 ==> t[n].fileName != image.fileName)
            && (if Occupied(t, 11) then s == 10 else EndsFreeRun(t, s))
            ==> Remember(t, image) == t[s := image]
  {
    FirstSlotIsLeast(t, image.fileName, 1);
    if !Occupied(t, 11) {
      NewNamePlacement(t, s);
    }
  }

  lemma KnownKeepsOk(t: Table, image: ImageSettings, s: int)
    requires RecentOk(t) && image.fileName != "" && 1 <= s <= 9 && t[s].fileName == image.fileName
    ensures RecentOk(Cleared(t, s, 8)[9 := image])
  {
    var r := Cleared(t, s, 8)[9 := image];
    forall n | n < 0 || n >= NUM_RECENT_FILES ensures !Occupied(r, n) {
      assert !Occupied(t, n);
    }
    forall i, j | 1 <= i < j <= 9 && Occupied(r, i) ensures r[i].fileName != r[j].fileName {
      assert i < s && Occupied(t, i);
      assert t[i].fileName != t[s].fileName;
    }
  }

  lemma NewKeepsOk(t: Table, image: ImageSettings, k: int)
    requires RecentOk(t) && 0 <= k <= 9 && forall n | 1 <= n <= 9 :: t[n].fileName != image.fileName
    ensures RecentOk(t[k := image])
  {
    var r := t[k := image];
    forall n | n < 0 || n >= NUM_RECENT_FILES ensures !Occupied(r, n) {
      assert !Occupied(t, n);
    }
    forall i, j | 1 <= i < j <= 9 && Occupied(r, i) ensures r[i].fileName != r[j].fileName {
      assert i != k ==> Occupied(t, i);
    }
  }

  /** Remembering an image keeps the recent images well-formed, and the slot chosen for a new name is in 0..9. */
  lemma RememberKeepsOk(t: Table, image: ImageSettings)
    requires RecentOk(t)
    ensures RecentOk(Remember(t, image)) && 0 <= FreeSlot(t) <= 9
  {
    var s := FirstSlot(t, image.fileName, 1);
    FirstSlotIsLeast(t, image.fileName, 1);
    assert !Occupied(t, 10) && !Occupied(t, 11);
    NewNamePlacement(t, FreeSlot(t));
    if image.fileName != "" {
      if s <= 9 {
        RememberKnownName(t, image, s);
        KnownKeepsOk(t, image, s);
      } else {
        NewKeepsOk(t, image, FreeSlot(t));
      }
    }
  }

  // ---------- The order in which slots fill ----------

  ghost predicate DistinctNames(images: seq<ImageSettings>) {
    && (forall i :: 0 <= i < |images| ==> images[i].fileName != "")
    && (forall i, j :: 0 <= i < j < |images| ==> images[i].fileName != images[j].fileName)
  }

  lemma DistinctInit(images: seq<ImageSettings>, last: ImageSettings)
    requires DistinctNames(images + [last])
    ensures DistinctNames(images) && last.fileName != "" && forall x | x in images :: x.fileName != last.fileName
  {
    var all := images + [last];
    assert forall i | 0 <= i < |images| :: images[i] == all[i];
    assert all[|images|] == last;
  }

  /** Slots 9 down to 1 hold the first nine images in order; slot 0 holds the last one when there are more. */
  ghost predicate FilledBy(t: Table, images: seq<ImageSettings>) {
    && (forall k :: 1 <= k <= 9 ==> if 10 - k <= |images| then t[k] == images[9 - k] else !Occupied(t, k))
    && (|images| >= 10 ==> t[0] == images[|images| - 1])
  }

  lemma FillStep(t: Table, images: seq<ImageSettings>, image: ImageSettings)
    requires RecentOk(t) && FilledBy(t, images) && DistinctNames(images)
    requires image.fileName != "" && forall x | x in images :: x.fileName != image.fileName
    ensures FilledBy(Remember(t, image), images + [image])
  {
    var n := |images|;
    var k := if n < 9 then 9 - n else 0;
    assert forall m | 1 <= m <= 9 && 10 - m > n :: !Occupied(t, m);
    assert k < 9 ==> t[k + 1] == images[8 - k];
    RememberNewName(t, image, k);
  }

  // ---------- The drives ----------

  ghost function Exchanged(t: Table, no1: int, no2: int): Table {
    t[no1 := t[no2]][no2 := t[no1]]
  }

  /** The entries lo, lo+1, ..., hi-1 in order. */
  ghost function Window(t: Table, lo: int, hi: int): seq<ImageSettings>
    requires lo <= hi
  {
    seq(hi - lo, i => t[lo + i])
  }

  lemma ExchangePermutes(t: Table, no1: int, no2: int, lo: int, hi: int)
    requires lo <= no1 < hi && lo <= no2 < hi
    ensures multiset(Window(Exchanged(t, no1, no2), lo, hi)) == multiset(Window(t, lo, hi))
  {
    var w := Window(t, lo, hi);
    var a, b := no1 - lo, no2 - lo;
    assert Window(Exchanged(t, no1, no2), lo, hi) == w[a := w[b]][b := w[a]];
  }

  // ---------- Both tables ----------

  /** What the program can see of the settings: the two tables, and all settings outside them. */
  datatype View = View(recent: Table, drives: Table, rest: Store)

  ghost function AfterMount(v: View, no: int, image: ImageSettings): View {
    if image.fileName == "" then v else View(Remember(v.recent, image), v.drives[no := image], v.rest)
  }

  ghost function AfterUnmount(v: View, no: int): View {
    View(Forget(v.recent, no), v.drives[no := NO_IMAGE], v.rest)
  }

  ghost function AfterSwap(v: View, no1: int, no2: int): View {
    View(v.recent, Exchanged(v.drives, no1, no2), v.rest)
  }

  ghost function AfterProtect(v: View, no: int, prot: bool): View {
    View(v.recent, v.drives[no := ImageSettings(v.drives[no].fileName, prot)], v.rest)
  }

  ghost function AfterOther(v: View, key: Path, value: Variant): View {
    View(v.recent, v.drives, v.rest[key := value])
  }
}
