/** Saving the settings to a session file and loading them back. */
module Session {
  import opened SettingsStore
  import opened Tables
  import opened ImageTables
  import Decimal

  /** The session file after a store has been saved to it. */
  function Saved(file: Store, d: Store): Store {
    file + d
  }

  /** The store after a session file has been loaded. */
  function Loaded(d: Store, file: Store): Store {
    d + file
  }

  /**
   Saving does not clear the file. Loading afterwards gives every saved setting its saved value; a setting that was
   not saved has the value an earlier session left in the file, or else its present one. It is an exact restore if
   and only if neither the file nor the present state has a setting that was not saved.
   */
  lemma RestoreExactIff(file: Store, saved: Store, now: Store)
    ensures var r := Loaded(now, Saved(file, saved));
            && (forall key | key in saved :: key in r && r[key] == saved[key])
            && (forall key | key !in saved :: (key in r <==> key in now || key in file)
                                              && Lookup(r, key) == Lookup(if key in file then file else now, key))
            && (r == saved <==> now.Keys <= saved.Keys && file.Keys <= saved.Keys)
  {
    var r := Loaded(now, Saved(file, saved));
    assert r.Keys == now.Keys + file.Keys + saved.Keys;
    if now.Keys <= saved.Keys && file.Keys <= saved.Keys {
      assert forall key | key in r :: r[key] == saved[key];
    } else {
      assert r.Keys != saved.Keys by {
        var key :| key in now.Keys + file.Keys && key !in saved;
        assert key in r.Keys;
      }
    }
  }

  /** An image mounted after the save, in a drive the session file does not mention, is still mounted after the load. */
  lemma RestoreKeepsLaterMount(file: Store, saved: Store, no: int, image: ImageSettings)
    requires NoImages(saved) && image.fileName != ""
    requires forall key | key in {NameKey(MOUNTED, no), ProtectedKey(MOUNTED, no)} :: key !in saved && key !in file
    ensures Drives(Loaded(Mounted(saved, no, image), Saved(file, saved)))[no] == image
  {
    var now := Mounted(saved, no, image);
    MountedView(saved, no, image);
    DriveNotInFile(now, Saved(file, saved), no);
  }

  lemma DriveNotInFile(now: Store, file: Store, no: int)
    requires NameKey(MOUNTED, no) !in file && ProtectedKey(MOUNTED, no) !in file
    ensures Drives(Loaded(now, file))[no] == Drives(now)[no]
  {
  }

  /** A drive whose two settings were saved is restored, whatever happened to it since and whatever the file held. */
  lemma RestoresStoredDrive(file: Store, saved: Store, now: Store, no: int)
    requires NameKey(MOUNTED, no) in saved && ProtectedKey(MOUNTED, no) in saved
    ensures Drives(Loaded(now, Saved(file, saved)))[no] == Drives(saved)[no]
  {
  }

  /** A drive that was not saved comes back from an earlier session in the same file. */
  lemma StaleDriveReturns(file: Store, saved: Store, now: Store, no: int)
    requires NameKey(MOUNTED, no) in file && ProtectedKey(MOUNTED, no) in file
    requires NameKey(MOUNTED, no) !in saved && ProtectedKey(MOUNTED, no) !in saved
    ensures Drives(Loaded(now, Saved(file, saved)))[no] == Drives(file)[no]
  {
  }

  /** For instance, a file that a session with an image in the drive was saved to, then an empty state. */
  lemma StaleDriveExample(d: Store, no: int, image: ImageSettings)
    requires d == map[] && image.fileName != ""
    ensures Drives(Loaded(d, Saved(Saved(d, Mounted(d, no, image)), d)))[no] == image
  {
    var file := Mounted(d, no, image);
    EmptyStore(d);
    FirstMount(d, no, image);
    MountedView(d, no, image);
    SavedToEmpty(d, file);
    StaleDriveReturns(file, d, d, no);
  }

  // ---------- Many saves to one file ----------

  function FileAfter(file: Store, saves: seq<Store>): Store {
    if saves == [] then file else Saved(FileAfter(file, saves[..|saves| - 1]), saves[|saves| - 1])
  }

  function LoadedInTurn(d: Store, files: seq<Store>): Store {
    if files == [] then d else Loaded(LoadedInTurn(d, files[..|files| - 1]), files[|files| - 1])
  }

  /** Loading a file that was saved to many times is like loading each of the saved states in turn. */
  lemma {:induction false} SavesAccumulate(d: Store, file: Store, saves: seq<Store>)
    ensures Loaded(d, FileAfter(file, saves)) == LoadedInTurn(Loaded(d, file), saves)
  {
    if saves != [] {
      SavesAccumulate(d, file, saves[..|saves| - 1]);
      var before, last := FileAfter(file, saves[..|saves| - 1]), saves[|saves| - 1];
      assert d + (before + last) == (d + before) + last;
    }
  }

  // ---------- Loading and the recent images ----------

  /** The file names a recent image in one slot that, live, sits in another slot the file does not store. */
  ghost predicate Clashes(t: Table, file: Store, i: int, j: int) {
    && NameKey(RECENT, i) in file && NameKey(RECENT, j) !in file
    && Recent(file)[i].fileName != "" && Recent(file)[i].fileName == t[j].fileName
  }

  ghost predicate ClashFrom(t: Table, file: Store, lo: nat) {
    exists i, j :: lo <= i <= 9 && lo <= j <= 9 && Clashes(t, file, i, j)
  }

  /** What the recent images require of a file that is to be loaded: a good list of its own that does not clash. */
  ghost predicate LoadSafe(t: Table, file: Store, lo: nat) {
    DistinctFrom(Recent(file), lo) && !ClashFrom(t, file, lo)
  }

  /** Names stay unique in slots lo..9 over a load if and only if the file is safe to load. */
  lemma LoadKeepsDistinctIff(t: Table, file: Store, lo: nat)
    requires DistinctFrom(t, lo)
    ensures DistinctFrom(OverTable(t, file, RECENT), lo) <==> LoadSafe(t, file, lo)
  {
    var r, f := OverTable(t, file, RECENT), Recent(file);
    OccupiedIsStored(file);
    if i, j :| lo <= i <= 9 && lo <= j <= 9 && Clashes(t, file, i, j) {
      assert Occupied(r, i) && Occupied(r, j) && r[i].fileName == r[j].fileName && i != j;
    } else if DistinctFrom(f, lo) {
      SafeLoadDistinct(t, file, lo);
    } else {
      assert forall n | Occupied(f, n) :: Occupied(r, n) && r[n].fileName == f[n].fileName;
      if n :| (n < 0 || n >= NUM_RECENT_FILES) && Occupied(f, n) {
        assert Occupied(r, n);
      } else {
        var i, j :| lo <= i < j <= 9 && Occupied(f, i) && f[i].fileName == f[j].fileName;
        assert Occupied(r, i) && Occupied(f, j);
      }
    }
  }

  lemma OccupiedIsStored(file: Store)
    ensures forall n | Occupied(Recent(file), n) :: NameKey(RECENT, n) in file
  {
  }

  lemma SafeLoadDistinct(t: Table, file: Store, lo: nat)
    requires DistinctFrom(t, lo) && LoadSafe(t, file, lo)
    ensures DistinctFrom(OverTable(t, file, RECENT), lo)
  {
    var r, f := OverTable(t, file, RECENT), Recent(file);
    forall k | k < 0 || k >= NUM_RECENT_FILES ensures !Occupied(r, k) {
      assert !Occupied(t, k) && !Occupied(f, k);
    }
    forall i, j | lo <= i < j <= 9 && Occupied(r, i) ensures r[i].fileName != r[j].fileName {
      assert !Clashes(t, file, i, j) && !Clashes(t, file, j, i);
      assert Occupied(f, i) || Occupied(t, i);
    }
  }

  /** The same for the store: over slots 1..9, and over the whole visible list 0..9. */
  lemma LoadKeepsRecentIff(now: Store, file: Store, lo: nat)
    requires DistinctFrom(Recent(now), lo)
    ensures DistinctFrom(Recent(Loaded(now, file)), lo) <==> LoadSafe(Recent(now), file, lo)
  {
    LoadKeepsDistinctIff(Recent(now), file, lo);
    LoadedTable(now, file, RECENT);
  }

  // ---------- Two sessions that clash ----------

  /** Mounting the first image writes recent slot 9 and the drive, and no other key. */
  lemma FirstMount(d: Store, no: int, image: ImageSettings)
    requires NoImages(d) && image.fileName != "" && forall n :: Recent(d)[n] == NO_IMAGE
    ensures Mounted(d, no, image) == PutImage(PutImage(d, RECENT, 9, image), MOUNTED, no, image)
    ensures Recent(Mounted(d, no, image)) == Recent(d)[9 := image]
    ensures RecentOk(Recent(d)[9 := image])
  {
    var t := Recent(d);
    FirstSlotIsLeast(t, image.fileName, 1);
    NewNamePlacement(t, 9);
    RememberNewName(t, image, 9);
    RememberKeepsOk(t, image);
    MountedView(d, no, image);
  }

  /** The second image goes to slot 8. */
  lemma SecondMount(d: Store, no: int, image: ImageSettings, first: ImageSettings)
    requires NoImages(d) && first.fileName != "" && image.fileName !in {"", first.fileName}
    requires Recent(d)[9] == first && forall n | n != 9 :: Recent(d)[n] == NO_IMAGE
    ensures Recent(Mounted(d, no, image)) == Recent(d)[8 := image]
  {
    var t := Recent(d);
    assert Occupied(t, 9);
    RememberNewName(t, image, 8);
    MountedView(d, no, image);
  }

  lemma OtherSlotKey(d: Store, no: int, image: ImageSettings)
    requires d == map[]
    ensures var file := PutImage(PutImage(d, RECENT, 9, image), MOUNTED, no, image);
            NameKey(RECENT, 9) in file && NameKey(RECENT, 8) !in file
  {
    if Decimal.OfInt(8) == Decimal.OfInt(9) {
      Decimal.Injective(8, 9);
    }
    assert NameKey(RECENT, 8)[1] != NameKey(RECENT, 9)[1] && NameKey(RECENT, 8)[1] != ProtectedKey(RECENT, 9)[1];
    assert |RECENT| != |MOUNTED|;
    assert NameKey(RECENT, 8)[0] == NameKey(RECENT, 9)[0] == RECENT;
    assert NameKey(MOUNTED, no)[0] == ProtectedKey(MOUNTED, no)[0] == MOUNTED;
  }

  lemma ClashShows(now: Store, file: Store)
    requires NameKey(RECENT, 9) in file && NameKey(RECENT, 8) !in file
    ensures var t := Recent(Loaded(now, file));
            t[8].fileName == Recent(now)[8].fileName && t[9].fileName == Recent(file)[9].fileName
  {
    LoadedTable(now, file, RECENT);
  }

  lemma SavedToEmpty(d: Store, x: Store)
    requires d == map[]
    ensures Saved(d, x) == x
  {
  }

  /** Mounting two images in turn into a store without recent images. */
  lemma MountTwo(d: Store, first: Store, a: ImageSettings, b: ImageSettings)
    requires NoImages(d) && a.fileName != "" && b.fileName != "" && a.fileName != b.fileName
    requires NoImages(first) && forall n :: Recent(d)[n] == NO_IMAGE
    requires Recent(first) == Recent(d)[9 := b]
    ensures Recent(Mounted(first, 1, a))[8] == a
  {
    SecondMount(first, 1, a, b);
  }

  lemma EmptyStore(d: Store)
    requires d == map[]
    ensures NoImages(d) && forall n :: Recent(d)[n] == NO_IMAGE
  {
  }

  /** The recent images of a store in which b and then a have been mounted. */
  lemma TwoMounts(d: Store, a: ImageSettings, b: ImageSettings)
    requires d == map[] && a.fileName != "" && b.fileName != "" && a.fileName != b.fileName
    ensures Recent(Mounted(Mounted(d, 0, b), 1, a))[8] == a
  {
    EmptyStore(d);
    FirstMount(d, 0, b);
    MountedView(d, 0, b);
    MountTwo(d, Mounted(d, 0, b), a, b);
  }

  /** The keys and the recent images of a session in which only a has been mounted. */
  lemma OneMount(d: Store, a: ImageSettings)
    requires d == map[] && a.fileName != ""
    ensures var file := Mounted(d, 0, a);
            NameKey(RECENT, 9) in file && NameKey(RECENT, 8) !in file && Recent(file)[9] == a
  {
    EmptyStore(d);
    FirstMount(d, 0, a);
    OtherSlotKey(d, 0, a);
  }

  /**
   A session saved with image a mounted, loaded when b and then a have been mounted: the name of a is then in
   recent slots 8 and 9.
   */
  lemma LoadDuplicatesExample(d: Store, a: ImageSettings, b: ImageSettings)
    requires d == map[] && a.fileName != "" && b.fileName != "" && a.fileName != b.fileName
    ensures var t := Recent(Loaded(Mounted(Mounted(d, 0, b), 1, a), Saved(d, Mounted(d, 0, a))));
            t[8].fileName == t[9].fileName == a.fileName
  {
    var now, file := Mounted(Mounted(d, 0, b), 1, a), Mounted(d, 0, a);
    TwoMounts(d, a, b);
    OneMount(d, a);
    SavedToEmpty(d, file);
    ClashShows(now, Saved(d, file));
  }
}
