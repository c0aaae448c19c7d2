/**
 How the two image tables live in the settings store, and what mounting, unmounting and swapping make of the
 whole store. The lemmas show that each of these operations does to the tables what module Tables says.
 */
module ImageTables {
  import opened SettingsStore
  import opened Tables
  import Decimal

  const RECENT := "RecentImageSettings"
  const MOUNTED := "MountedImageSettings"
  const LENGTH_KEY: Path := [RECENT, "size"]

  // ---------- Entries of a table ----------

  function EntryKey(table: string, no: int): Path {
    [table, Decimal.OfInt(no)]
  }

  function NameKey(table: string, no: int): Path {
    [table, Decimal.OfInt(no), "FileName"]
  }

  function ProtectedKey(table: string, no: int): Path {
    [table, Decimal.OfInt(no), "IsWriteProtected"]
  }

  function ImageAt(d: Store, table: string, no: int): ImageSettings {
    ImageSettings(Lookup(d, NameKey(table, no)).ToText(), Lookup(d, ProtectedKey(table, no)).ToBool())
  }

  function PutImage(d: Store, table: string, no: int, image: ImageSettings): Store {
    d[NameKey(table, no) := Text(image.fileName)][ProtectedKey(table, no) := Flag(image.isWriteProtected)]
  }

  ghost function TableOf(d: Store, table: string): Table {
    imap n: int | true :: ImageAt(d, table, n)
  }

  ghost function Recent(d: Store): Table {
    TableOf(d, RECENT)
  }

  ghost function Drives(d: Store): Table {
    TableOf(d, MOUNTED)
  }

  // ---------- The operations on the whole store ----------

  /** The record read while entry slot - 1 of the array is selected: the key is relative to that entry. */
  function ShiftedRecord(d: Store, slot: int): ImageSettings {
    Lookup(d, EntryKey(RECENT, slot) + EntryKey(RECENT, slot)).ToImage()
  }

  /** Slots `slot` to 9 rewritten from the records that the shift reads. */
  function Shifted(d: Store, slot: int): Store
    decreases 10 - slot
  {
    if slot > 9 then d else Shifted(PutImage(d, RECENT, slot, ShiftedRecord(d, slot)), slot + 1)
  }

  /** The whole array write of the shift, including the array length it leaves behind. */
  function ShiftedArray(d: Store, slot: int): Store {
    Shifted(d - {LENGTH_KEY}, slot)[LENGTH_KEY := Number(if slot <= 9 then 9 else 0)]
  }

  ghost function Mounted(d: Store, no: int, image: ImageSettings): Store {
    if image.fileName == "" then d
    else
      var s := FirstSlot(Recent(d), image.fileName, 1);
      var recent := if s <= 10 then PutImage(ShiftedArray(d, s), RECENT, 9, image)
                    else PutImage(d, RECENT, FreeSlot(Recent(d)), image);
      PutImage(recent, MOUNTED, no, image)
  }

  function Unmounted(d: Store, no: int): Store {
    var record := Lookup(d, EntryKey(RECENT, no)).ToImage();
    var image := Lookup(d, EntryKey(MOUNTED, no)).ToImage();
    PutImage(PutImage(PutImage(d, RECENT, no, record), RECENT, 0, image), MOUNTED, no, NO_IMAGE)
  }

  function Swapped(d: Store, no1: int, no2: int): Store {
    PutImage(PutImage(d, MOUNTED, no1, ImageAt(d, MOUNTED, no2)), MOUNTED, no2, ImageAt(d, MOUNTED, no1))
  }

  function Protected(d: Store, no: int, prot: bool): Store {
    d[ProtectedKey(MOUNTED, no) := Flag(prot)]
  }

  // ---------- What the operations do to the tables ----------

  /** No value in the store is an image record as such: records are stored field by field. */
  ghost predicate NoImages(d: Store) {
    forall key | key in d :: !d[key].Image?
  }

  /** A key that lies in neither image table, nor in the length of their arrays. */
  ghost predicate Elsewhere(key: Path) {
    key == [] || (key[0] != RECENT && key[0] != MOUNTED)
  }

  /** The store without the two image tables. */
  ghost function Rest(d: Store): Store {
    map key | key in d && Elsewhere(key) :: d[key]
  }

  ghost function ViewOf(d: Store): View {
    View(Recent(d), Drives(d), Rest(d))
  }

  /** Writing one key of an entry affects how that entry reads, and no other. */
  lemma WriteField(d: Store, key: Path, value: Variant, table: string, no: int, t: string, n: int)
    requires key == NameKey(table, no) || key == ProtectedKey(table, no)
    requires t != table || n != no
    ensures ImageAt(d[key := value], t, n) == ImageAt(d, t, n)
  {
    if t == table && Decimal.OfInt(n) == Decimal.OfInt(no) {
      Decimal.Injective(n, no);
    }
    assert NameKey(t, n)[..2] == ProtectedKey(t, n)[..2] == EntryKey(t, n);
    assert key[..2] == EntryKey(table, no);
    assert EntryKey(t, n)[0] != EntryKey(table, no)[0] || EntryKey(t, n)[1] != EntryKey(table, no)[1];
  }

  /** Such a write leaves every other table as it is, and the other entries of its own. */
  lemma WriteFieldTables(d: Store, key: Path, value: Variant, table: string, no: int, t: string)
    requires key == NameKey(table, no) || key == ProtectedKey(table, no)
    ensures TableOf(d[key := value], t)
            == if t == table then TableOf(d, t)[no := ImageAt(d[key := value], table, no)] else TableOf(d, t)
  {
    forall n | t != table || n != no ensures ImageAt(d[key := value], t, n) == ImageAt(d, t, n) {
      WriteField(d, key, value, table, no, t, n);
    }
  }

  lemma PutImageTables(d: Store, table: string, no: int, image: ImageSettings, t: string)
    ensures TableOf(PutImage(d, table, no, image), t)
            == if t == table then TableOf(d, t)[no := image] else TableOf(d, t)
  {
    var d1 := d[NameKey(table, no) := Text(image.fileName)];
    WriteFieldTables(d, NameKey(table, no), Text(image.fileName), table, no, t);
    WriteFieldTables(d1, ProtectedKey(table, no), Flag(image.isWriteProtected), table, no, t);
    PutImageAt(d, table, no, image);
  }

  lemma PutImageAt(d: Store, table: string, no: int, image: ImageSettings)
    ensures ImageAt(PutImage(d, table, no, image), table, no) == image
  {
    assert NameKey(table, no)[2] != ProtectedKey(table, no)[2];
  }

  lemma WriteInTables(d: Store, key: Path, value: Variant)
    requires !Elsewhere(key)
    ensures Rest(d[key := value]) == Rest(d)
  {
  }

  lemma PutImageRest(d: Store, table: string, no: int, image: ImageSettings)
    requires table == RECENT || table == MOUNTED
    ensures Rest(PutImage(d, table, no, image)) == Rest(d)
  {
    assert NameKey(table, no)[0] == ProtectedKey(table, no)[0] == table;
    WriteInTables(d, NameKey(table, no), Text(image.fileName));
    WriteInTables(d[NameKey(table, no) := Text(image.fileName)], ProtectedKey(table, no), Flag(image.isWriteProtected));
  }

  lemma PutRecentView(d: Store, no: int, image: ImageSettings)
    ensures ViewOf(PutImage(d, RECENT, no, image)) == ViewOf(d).(recent := Recent(d)[no := image])
    ensures NoImages(d) ==> NoImages(PutImage(d, RECENT, no, image))
  {
    PutImageTables(d, RECENT, no, image, RECENT);
    PutImageTables(d, RECENT, no, image, MOUNTED);
    PutImageRest(d, RECENT, no, image);
    assert |RECENT| != |MOUNTED|;
  }

  lemma PutDriveView(d: Store, no: int, image: ImageSettings)
    ensures ViewOf(PutImage(d, MOUNTED, no, image)) == ViewOf(d).(drives := Drives(d)[no := image])
    ensures NoImages(d) ==> NoImages(PutImage(d, MOUNTED, no, image))
  {
    PutImageTables(d, MOUNTED, no, image, RECENT);
    PutImageTables(d, MOUNTED, no, image, MOUNTED);
    PutImageRest(d, MOUNTED, no, image);
    assert |RECENT| != |MOUNTED|;
  }

  lemma LengthNoEntry(d: Store, d': Store, t: string)
    requires forall key | key != LENGTH_KEY :: Lookup(d', key) == Lookup(d, key)
    ensures TableOf(d', t) == TableOf(d, t)
  {
    forall n ensures ImageAt(d', t, n) == ImageAt(d, t, n) {
      assert |LENGTH_KEY| == 2 && |NameKey(t, n)| == 3 && |ProtectedKey(t, n)| == 3;
    }
  }

  /** The array length is no part of any entry. */
  lemma LengthOutside(d: Store, value: Variant)
    ensures ViewOf(d[LENGTH_KEY := value]) == ViewOf(d) && ViewOf(d - {LENGTH_KEY}) == ViewOf(d)
  {
    assert LENGTH_KEY[0] == RECENT;
    assert Rest(d - {LENGTH_KEY}) == Rest(d);
    WriteInTables(d, LENGTH_KEY, value);
    LengthNoEntry(d, d[LENGTH_KEY := value], RECENT);
    LengthNoEntry(d, d[LENGTH_KEY := value], MOUNTED);
    LengthNoEntry(d, d - {LENGTH_KEY}, RECENT);
    LengthNoEntry(d, d - {LENGTH_KEY}, MOUNTED);
  }

  /** Without stored image records, the shift of a re-mount empties slots `slot` to 9. */
  lemma {:induction false} ShiftedView(d: Store, slot: int)
    requires NoImages(d) && 1 <= slot <= 10
    ensures NoImages(Shifted(d, slot))
    ensures ViewOf(Shifted(d, slot)) == ViewOf(d).(recent := Cleared(Recent(d), slot, 9))
    decreases 10 - slot
  {
    ClearedStep(Recent(d), slot);
    if slot <= 9 {
      assert ShiftedRecord(d, slot) == NO_IMAGE;
      PutRecentView(d, slot, NO_IMAGE);
      ShiftedView(PutImage(d, RECENT, slot, NO_IMAGE), slot + 1);
    }
  }

  lemma ShiftedArrayView(d: Store, slot: int)
    requires NoImages(d) && 1 <= slot <= 10
    ensures NoImages(ShiftedArray(d, slot))
    ensures ViewOf(ShiftedArray(d, slot)) == ViewOf(d).(recent := Cleared(Recent(d), slot, 9))
  {
    var length := Number(if slot <= 9 then 9 else 0);
    LengthOutside(d, length);
    ShiftedView(d - {LENGTH_KEY}, slot);
    LengthOutside(Shifted(d - {LENGTH_KEY}, slot), length);
  }

  /** Mounting remembers the image among the recent ones and puts it in its drive; the rest of the store stays. */
  lemma MountedView(d: Store, no: int, image: ImageSettings)
    requires NoImages(d)
    ensures NoImages(Mounted(d, no, image))
    ensures ViewOf(Mounted(d, no, image)) == AfterMount(ViewOf(d), no, image)
  {
    if image.fileName != "" {
      var s := FirstSlot(Recent(d), image.fileName, 1);
      FirstSlotIsLeast(Recent(d), image.fileName, 1);
      var d1 := if s <= 10 then ShiftedArray(d, s) else d;
      var slot := if s <= 10 then 9 else FreeSlot(Recent(d));
      if s <= 10 {
        ShiftedArrayView(d, s);
      }
      PutRecentView(d1, slot, image);
      PutDriveView(PutImage(d1, RECENT, slot, image), no, image);
    }
  }

  /** Unmounting empties the drive, and recent slot 0 and the recent slot numbered like the drive. */
  lemma UnmountedView(d: Store, no: int)
    requires NoImages(d)
    ensures NoImages(Unmounted(d, no))
    ensures ViewOf(Unmounted(d, no)) == AfterUnmount(ViewOf(d), no)
  {
    var d1 := PutImage(d, RECENT, no, NO_IMAGE);
    PutRecentView(d, no, NO_IMAGE);
    PutRecentView(d1, 0, NO_IMAGE);
    PutDriveView(PutImage(d1, RECENT, 0, NO_IMAGE), no, NO_IMAGE);
  }

  /** A swap exchanges two drives and nothing else. */
  lemma SwappedView(d: Store, no1: int, no2: int)
    ensures NoImages(d) ==> NoImages(Swapped(d, no1, no2))
    ensures ViewOf(Swapped(d, no1, no2)) == AfterSwap(ViewOf(d), no1, no2)
  {
    var image1, image2 := ImageAt(d, MOUNTED, no1), ImageAt(d, MOUNTED, no2);
    PutDriveView(d, no1, image2);
    PutDriveView(PutImage(d, MOUNTED, no1, image2), no2, image1);
  }

  lemma ProtectedAt(d: Store, table: string, no: int, prot: bool)
    ensures ImageAt(d[ProtectedKey(table, no) := Flag(prot)], table, no)
            == ImageSettings(ImageAt(d, table, no).fileName, prot)
  {
    assert NameKey(table, no)[2] != ProtectedKey(table, no)[2];
  }

  /** Setting the protection of a drive keeps its file name. */
  lemma ProtectedView(d: Store, no: int, prot: bool)
    ensures NoImages(d) ==> NoImages(Protected(d, no, prot))
    ensures ViewOf(Protected(d, no, prot)) == AfterProtect(ViewOf(d), no, prot)
  {
    var key := ProtectedKey(MOUNTED, no);
    ProtectedAt(d, MOUNTED, no, prot);
    WriteFieldTables(d, key, Flag(prot), MOUNTED, no, MOUNTED);
    WriteFieldTables(d, key, Flag(prot), MOUNTED, no, RECENT);
    assert key[0] == MOUNTED && |RECENT| != |MOUNTED|;
    WriteInTables(d, key, Flag(prot));
  }

  lemma OtherTable(d: Store, key: Path, value: Variant, table: string)
    requires key == [] || key[0] != table
    ensures TableOf(d[key := value], table) == TableOf(d, table)
  {
    forall n ensures ImageAt(d[key := value], table, n) == ImageAt(d, table, n) {
      assert NameKey(table, n)[0] == ProtectedKey(table, n)[0] == table;
    }
  }

  lemma OtherRest(d: Store, key: Path, value: Variant)
    requires Elsewhere(key)
    ensures Rest(d[key := value]) == Rest(d)[key := value]
  {
  }

  /** Any other setting leaves both tables as they are. */
  lemma OtherView(d: Store, key: Path, value: Variant)
    requires Elsewhere(key) && !value.Image?
    ensures NoImages(d) ==> NoImages(d[key := value])
    ensures ViewOf(d[key := value]) == AfterOther(ViewOf(d), key, value)
  {
    OtherTable(d, key, value, RECENT);
    OtherTable(d, key, value, MOUNTED);
    OtherRest(d, key, value);
  }

  // ---------- Loading ----------

  /** A table after a file has been loaded: each field the file stores wins over the live one. */
  ghost function OverTable(t: Table, file: Store, table: string): Table {
    imap n: int | true ::
      ImageSettings(if NameKey(table, n) in file then ImageAt(file, table, n).fileName else t[n].fileName,
                    if ProtectedKey(table, n) in file then ImageAt(file, table, n).isWriteProtected
                    else t[n].isWriteProtected)
  }

  ghost function AfterLoad(v: View, file: Store): View {
    View(OverTable(v.recent, file, RECENT), OverTable(v.drives, file, MOUNTED), v.rest + Rest(file))
  }

  lemma LoadedTable(d: Store, file: Store, table: string)
    ensures TableOf(d + file, table) == OverTable(TableOf(d, table), file, table)
  {
  }

  lemma LoadedRest(d: Store, file: Store)
    ensures Rest(d + file) == Rest(d) + Rest(file)
  {
  }

  /** Loading a file overlays both tables, field by field, and the other settings, key by key. */
  lemma LoadedView(d: Store, file: Store)
    ensures NoImages(d) && NoImages(file) ==> NoImages(d + file)
    ensures ViewOf(d + file) == AfterLoad(ViewOf(d), file)
  {
    LoadedTable(d, file, RECENT);
    LoadedTable(d, file, MOUNTED);
    LoadedRest(d, file);
  }
}
