/** The keys and values that the image operations leave in a store, spelled out for small stores. */
module SettingsLayout {
  import opened SettingsStore
  import opened Tables
  import opened ImageTables
  import opened Session
  import Decimal

  lemma Digits()
    ensures Decimal.OfInt(0) == "0" && Decimal.OfInt(3) == "3" && Decimal.OfInt(4) == "4" && Decimal.OfInt(9) == "9"
    ensures Decimal.OfInt(10) == "10"
  {
    assert Decimal.OfNat(1) == "1";
  }

  /** The first image mounted, in drive 3: recent slot 9 and the drive, each by two keys. */
  lemma MountLayout(d: Store, x: string)
    requires d == map[] && x != ""
    ensures Mounted(d, 3, ImageSettings(x, true))
            == map[["RecentImageSettings", "9", "FileName"] := Text(x),
                   ["RecentImageSettings", "9", "IsWriteProtected"] := Flag(true),
                   ["MountedImageSettings", "3", "FileName"] := Text(x),
                   ["MountedImageSettings", "3", "IsWriteProtected"] := Flag(true)]
  {
    Digits();
    EmptyStore(d);
    FirstMount(d, 3, ImageSettings(x, true));
  }

  /** The rewrite of slot 9 from a record that is never stored: the slot is emptied, and the array has length 9. */
  lemma ShiftLayout(d: Store)
    requires d == map[]
    ensures ShiftedArray(d, 9)
            == map[["RecentImageSettings", "9", "FileName"] := Text(""),
                   ["RecentImageSettings", "9", "IsWriteProtected"] := Flag(false),
                   ["RecentImageSettings", "size"] := Number(9)]
    ensures ShiftedArray(d, 10) == map[["RecentImageSettings", "size"] := Number(0)]
  {
    Digits();
    assert d - {LENGTH_KEY} == d;
    assert Shifted(d, 10) == d;
    assert Shifted(d, 9) == PutImage(d, RECENT, 9, NO_IMAGE);
  }

  /** Unmounting drive 3 of an empty store writes recent slots 3 and 0 and the drive, all empty. */
  lemma UnmountLayout(d: Store)
    requires d == map[]
    ensures Unmounted(d, 3)
            == map[["RecentImageSettings", "3", "FileName"] := Text(""),
                   ["RecentImageSettings", "3", "IsWriteProtected"] := Flag(false),
                   ["RecentImageSettings", "0", "FileName"] := Text(""),
                   ["RecentImageSettings", "0", "IsWriteProtected"] := Flag(false),
                   ["MountedImageSettings", "3", "FileName"] := Text(""),
                   ["MountedImageSettings", "3", "IsWriteProtected"] := Flag(false)]
  {
    Digits();
  }

  /** Only a value-initialised record comes from a key that holds none; a stored record would come back. */
  lemma RecordRead(d: Store, image: ImageSettings, v: Variant)
    requires d == map[["MountedImageSettings", "3"] := v]
    ensures ImageAt(Unmounted(d, 3), RECENT, 0) == if v.Image? then v.image else ImageSettings("", false)
  {
    Digits();
    PutImageAt(d, RECENT, 3, NO_IMAGE);
  }

  /** A drive reads as no image at first, and as it was stored, be the flag a truth value or the text of one. */
  lemma ReadLayout(d: Store, e: Store, x: string, prot: bool, flag: Variant)
    requires d == map[] && flag in {Flag(prot), Text(if prot then "true" else "false")}
    requires e == map[["MountedImageSettings", "10", "FileName"] := Text(x),
                      ["MountedImageSettings", "10", "IsWriteProtected"] := flag]
    ensures ImageAt(d, MOUNTED, 10) == ImageSettings("", false)
    ensures ImageAt(e, MOUNTED, 10) == ImageSettings(x, prot)
  {
    Digits();
    StoredAsText(prot, 0);
  }

  /** A record is looked for under the entry that is selected, and would be taken from there. */
  lemma ShiftedRecordRead(d: Store, image: ImageSettings, key: Path, v: Variant)
    requires d == map[key := v] && v == Image(image)
    requires key == ["RecentImageSettings", "9", "RecentImageSettings", "9"] || key == ["RecentImageSettings", "9"]
    ensures ImageAt(ShiftedArray(d, 9), RECENT, 9) == if |key| == 4 then image else ImageSettings("", false)
  {
    Digits();
    assert d - {LENGTH_KEY} == d;
    assert EntryKey(RECENT, 9) + EntryKey(RECENT, 9)
        == ["RecentImageSettings", "9", "RecentImageSettings", "9"];
    assert Shifted(d, 9) == PutImage(d, RECENT, 9, ShiftedRecord(d, 9));
    assert |NameKey(RECENT, 9)| == |ProtectedKey(RECENT, 9)| == 3 && |LENGTH_KEY| == 2;
  }

  /** Mounting an image without a name does nothing. */
  lemma MountNothing(d: Store, no: int, prot: bool)
    ensures Mounted(d, no, ImageSettings("", prot)) == d
  {
  }
}
