/** The program's settings object and the methods that work on its store. */
module RespeqtSettings {
  import opened SettingsStore
  import opened Overlay
  import opened Tables
  import opened ImageTables
  import opened BrowserFolders
  import Session

  class RespeqtSettings {
    const mSettings: Settings
    var mIsFirstTime: bool

    /** Between calls the cursor of the store is at the root. */
    ghost predicate Valid()
      reads this, mSettings
    {
      mSettings.Valid() && mSettings.stack == []
    }

    /** Opens the store as the previous run of the program left it; the very first run finds no flag there. */
    constructor (stored: Store)
      requires [] !in stored
      ensures Valid() && fresh(mSettings)
      ensures mSettings.data == stored[["FirstTime"] := Flag(false)]
      ensures mIsFirstTime <==> ["FirstTime"] in stored ==> stored[["FirstTime"]].ToBool()
    {
      mSettings := new Settings(stored);
      new;
      RootCursor();
      mIsFirstTime := mSettings.ValueOr(["FirstTime"], Flag(true)).ToBool();
      mSettings.SetValue(["FirstTime"], Flag(false));
    }

    /** Copies everything below the cursor of one store to below the cursor of another. */
    static method CopySettings(setFrom: Settings, setTo: Settings)
      requires setFrom != setTo && setFrom.Valid() && setTo.Valid()
      modifies setFrom`stack, setTo
      ensures setTo.Valid()
      ensures setFrom.stack == old(setFrom.stack) && setTo.stack == old(setTo.stack)
      ensures setTo.data == Overlaid(old(setTo.data), old(setTo.Cursor()), setFrom.data, old(setFrom.Cursor()))
      decreases Depth(setFrom.data.Keys) - |setFrom.Cursor()|
    {
      ghost var from, to := setFrom.data, setTo.data;
      ghost var p, q := setFrom.Cursor(), setTo.Cursor();
      ProgressStart(to, q, from, p);

      var keys := setFrom.ChildKeys();
      for i := 0 to |keys|
        invariant setTo.Valid() && setTo.stack == old(setTo.stack) && setFrom.stack == old(setFrom.stack)
        invariant setTo.data == Progress(to, q, from, p, keys[..i], [])
      {
        ProgressKey(to, q, from, p, keys, i);
        var value := setFrom.Value([keys[i]]);
        setTo.SetValue([keys[i]], value);
      }
      assert keys[..|keys|] == keys;

      var groups := setFrom.ChildGroups();
      for i := 0 to |groups|
        invariant setTo.Valid() && setTo.stack == old(setTo.stack) && setFrom.stack == old(setFrom.stack)
        invariant setTo.data == Progress(to, q, from, p, keys, groups[..i])
      {
        ProgressGroup(to, q, from, p, keys, groups, i);
        ChildGroupDeeper(from, p, groups[i]);
        setFrom.BeginGroup(groups[i]);
        setTo.BeginGroup(groups[i]);
        CopySettings(setFrom, setTo);
        setTo.EndGroup();
        setFrom.EndGroup();
      }
      assert groups[..|groups|] == groups;
      ProgressEnd(to, q, from, p, keys, groups);
    }

    method SaveSessionToFile(file: Store) returns (file': Store)
      requires Valid() && [] !in file
      modifies mSettings`stack
      ensures Valid()
      ensures file' == Session.Saved(file, mSettings.data)
    {
      var s := new Settings(file);
      CopySettings(mSettings, s);
      OverlaidAtRoot(file, mSettings.data);
      file' := s.data;
    }

    method LoadSessionFromFile(file: Store)
      requires Valid() && [] !in file
      modifies mSettings
      ensures Valid()
      ensures mSettings.data == Session.Loaded(old(mSettings.data), file)
    {
      var s := new Settings(file);
      OverlaidAtRoot(mSettings.data, file);
      CopySettings(s, mSettings);
    }

    method MountedImageSetting(no: int) returns (image: ImageSettings)
      requires Valid()
      ensures image == ImageAt(mSettings.data, MOUNTED, no)
    {
      RootCursor();
      image := ImageSettings(mSettings.Value(NameKey(MOUNTED, no)).ToText(),
                             mSettings.Value(ProtectedKey(MOUNTED, no)).ToBool());
    }

    method RecentImageSetting(no: int) returns (image: ImageSettings)
      requires Valid()
      ensures image == ImageAt(mSettings.data, RECENT, no)
    {
      RootCursor();
      image := ImageSettings(mSettings.Value(NameKey(RECENT, no)).ToText(),
                             mSettings.Value(ProtectedKey(RECENT, no)).ToBool());
    }

    method SetMountedImageProtection(no: int, prot: bool)
      requires Valid()
      modifies mSettings`data
      ensures Valid() && mSettings.data == Protected(old(mSettings.data), no, prot)
    {
      RootCursor();
      mSettings.SetValue(ProtectedKey(MOUNTED, no), Flag(prot));
    }

    method SetMountedImageSetting(no: int, fileName: string, prot: bool)
      requires Valid()
      modifies mSettings`data
      ensures Valid() && mSettings.data == PutImage(old(mSettings.data), MOUNTED, no, ImageSettings(fileName, prot))
    {
      RootCursor();
      mSettings.SetValue(NameKey(MOUNTED, no), Text(fileName));
      mSettings.SetValue(ProtectedKey(MOUNTED, no), Flag(prot));
    }

    method MountImage(no: int, fileName: string, isWriteProtected: bool)
      requires Valid()
      modifies mSettings
      ensures Valid()
      ensures mSettings.data == Mounted(old(mSettings.data), no, ImageSettings(fileName, isWriteProtected))
    {
      if fileName == "" {
        return;
      }
      var i, found := FindRecent(fileName);
      if found {
        ShiftRecent(i);
        i := NUM_RECENT_FILES - 1;
      } else {
        i := ChooseSlot(i);
      }
      RootCursor();
      mSettings.SetValue(NameKey(RECENT, i), Text(fileName));
      mSettings.SetValue(ProtectedKey(RECENT, i), Flag(isWriteProtected));
      SetMountedImageSetting(no, fileName, isWriteProtected);
    }

    /** Selects entry i of the recent images, opened for reading, and reads its file name. */
    method SelectRecent(i: nat) returns (name: string)
      requires |mSettings.stack| == 1 && mSettings.stack[0].ReadArray? && mSettings.stack[0].name == RECENT
      modifies mSettings`stack
      ensures |mSettings.stack| == 1 && mSettings.stack[0].ReadArray? && mSettings.stack[0].name == RECENT
      ensures name == Recent(mSettings.data)[i + 1].fileName
    {
      mSettings.SetArrayIndex(i);
      SlotCursor(mSettings.stack[0], i + 1);
      name := mSettings.Value(["FileName"]).ToText();
    }

    /** The first loop of MountImage: looks for the name through the array interface. */
    method FindRecent(fileName: string) returns (i: int, found: bool)
      requires Valid()
      modifies mSettings
      ensures Valid() && mSettings.data == old(mSettings.data)
      ensures i == FirstSlot(Recent(mSettings.data), fileName, 1) - 1 && (found <==> i < NUM_RECENT_FILES)
    {
      i, found := 0, false;
      var _ := mSettings.BeginReadArray(RECENT);
      while i < NUM_RECENT_FILES
        invariant 0 <= i <= NUM_RECENT_FILES && !found
        invariant mSettings.data == old(mSettings.data) && |mSettings.stack| == 1
        invariant mSettings.stack[0].ReadArray? && mSettings.stack[0].name == RECENT
        invariant FirstSlot(Recent(mSettings.data), fileName, 1) == FirstSlot(Recent(mSettings.data), fileName, i + 1)
      {
        var name := SelectRecent(i);
        if name == fileName {
          found := true;
          break;
        }
        i := i + 1;
      }
      mSettings.EndArray();
    }

    /** The second loop of MountImage: rewrites slots i + 1 to 9 from the records it reads under the cursor. */
    method ShiftRecent(i: int)
      requires Valid() && 0 <= i < NUM_RECENT_FILES
      modifies mSettings
      ensures Valid() && mSettings.data == ShiftedArray(old(mSettings.data), i + 1)
    {
      RootCursor();
      mSettings.BeginWriteArray(RECENT);
      for j := i to NUM_RECENT_FILES - 1
        invariant mSettings.Valid()
        invariant mSettings.stack == [WriteArray(RECENT, if j == i then 0 else j, if j == i then 0 else j)]
        invariant Shifted(mSettings.data, j + 1) == Shifted(old(mSettings.data) - {LENGTH_KEY}, i + 1)
      {
        mSettings.SetArrayIndex(j);
        SlotCursor(mSettings.stack[0], j + 1);
        var record := mSettings.Value(EntryKey(RECENT, j + 1)).ToImage();
        mSettings.SetValue(["FileName"], Text(record.fileName));
        mSettings.SetValue(["IsWriteProtected"], Flag(record.isWriteProtected));
      }
      mSettings.EndArray();
    }

    /** The third loop of MountImage: it reads the slot after the last choice i, starting with slot 11. */
    method ChooseSlot(start: int) returns (i: int)
      requires Valid() && start == NUM_RECENT_FILES
      modifies mSettings
      ensures Valid() && mSettings.data == old(mSettings.data)
      ensures i == FreeSlot(Recent(mSettings.data))
    {
      ghost var d := mSettings.data;
      i := start;
      var _ := mSettings.BeginReadArray(RECENT);
      for j := 0 to NUM_RECENT_FILES
        invariant mSettings.data == d && |mSettings.stack| == 1
        invariant mSettings.stack[0].ReadArray? && mSettings.stack[0].name == RECENT
        invariant if j == 0 || Occupied(Recent(d), 11) then i == 10
                  else 0 <= i < j && FreeRun(Recent(d), 0) == FreeRun(Recent(d), i)
                       && (i == j - 1 || Occupied(Recent(d), i + 1))
      {
        var name := SelectRecent(i);
        if name != "" {
          continue;
        }
        i := j;
      }
      mSettings.EndArray();
    }

    method UnmountImage(no: int)
      requires Valid()
      modifies mSettings`data
      ensures Valid()
      ensures mSettings.data == Unmounted(old(mSettings.data), no)
    {
      RootCursor();
      ghost var d := mSettings.data;
      ghost var kept := Lookup(d, EntryKey(RECENT, no)).ToImage();
      var image := mSettings.Value(EntryKey(MOUNTED, no)).ToImage();
      var i := NUM_RECENT_FILES - 1;
      while i > 0
        invariant 0 <= i <= NUM_RECENT_FILES - 1
        invariant Valid()
        invariant mSettings.data == if i == NUM_RECENT_FILES - 1 then d else PutImage(d, RECENT, no, kept)
      {
        var record := mSettings.Value(EntryKey(RECENT, no)).ToImage();
        mSettings.SetValue(NameKey(RECENT, no), Text(record.fileName));
        mSettings.SetValue(ProtectedKey(RECENT, no), Flag(record.isWriteProtected));
        i := i - 1;
      }
      mSettings.SetValue(NameKey(RECENT, 0), Text(image.fileName));
      mSettings.SetValue(ProtectedKey(RECENT, 0), Flag(image.isWriteProtected));
      SetMountedImageSetting(no, "", false);
    }

    method SwapImages(no1: int, no2: int)
      requires Valid()
      modifies mSettings`data
      ensures Valid()
      ensures mSettings.data == Swapped(old(mSettings.data), no1, no2)
    {
      var image1 := MountedImageSetting(no1);
      var image2 := MountedImageSetting(no2);
      SetMountedImageSetting(no1, image2.fileName, image2.isWriteProtected);
      SetMountedImageSetting(no2, image1.fileName, image1.isWriteProtected);
    }

    method MostRecentBrowserFolder() returns (folder: string)
      requires Valid()
      modifies mSettings
      ensures Valid() && mSettings.data == old(mSettings.data)
      ensures folder == Front(Read(mSettings.data))
    {
      var folders := RecentBrowserFolders();
      folder := if folders != [] then folders[0] else "";
    }

    method RecentBrowserFolders() returns (folders: seq<string>)
      requires Valid()
      modifies mSettings
      ensures Valid() && mSettings.data == old(mSettings.data)
      ensures folders == Read(mSettings.data)
    {
      folders := [];
      RootCursor();
      var size := mSettings.BeginReadArray(FOLDERS);
      var i := 0;
      while i < size
        invariant 0 <= i && (i <= size || i == 0)
        invariant mSettings.data == old(mSettings.data) && |mSettings.stack| == 1
        invariant mSettings.stack[0].ReadArray? && mSettings.stack[0].name == FOLDERS
        invariant |folders| == i
        invariant forall k :: 0 <= k < i ==> folders[k] == Lookup(mSettings.data, FolderKey(k)).ToText()
      {
        var value := SelectFolder(i);
        folders := folders + [value];
        i := i + 1;
      }
      mSettings.EndArray();
    }

    /** Selects entry i of the folders, opened for reading, and reads it. */
    method SelectFolder(i: nat) returns (value: string)
      requires |mSettings.stack| == 1 && mSettings.stack[0].ReadArray? && mSettings.stack[0].name == FOLDERS
      modifies mSettings`stack
      ensures |mSettings.stack| == 1 && mSettings.stack[0].ReadArray? && mSettings.stack[0].name == FOLDERS
      ensures value == Lookup(mSettings.data, FolderKey(i)).ToText()
    {
      mSettings.SetArrayIndex(i);
      assert mSettings.stack == [ReadArray(FOLDERS, i + 1)];
      FolderCursor(ReadArray(FOLDERS, i + 1), i);
      value := mSettings.Value(["FileFolder"]).ToText();
    }

    method SetMostRecentBrowserFolder(fs: FileSystem, name: string)
      requires Valid()
      modifies mSettings
      ensures Valid()
      ensures mSettings.data == AfterSet(fs, old(mSettings.data), name)
    {
      var front := MostRecentBrowserFolder();
      if front == name {
        return;
      }
      if !fs(name).found {
        return;
      }
      var path := if fs(name).isFile then fs(name).path else name;
      var folders := RecentBrowserFolders();
      folders := RemoveFolder(fs, path, folders);
      folders := [name] + folders;
      if |folders| > MAX_FOLDERS {
        folders := folders[..|folders| - 1];
      }
      assert folders == Inserted(fs, Read(mSettings.data), name);
      WriteRecentBrowserFolders(fs, folders);
    }

    method DelMostRecentBrowserFolder(fs: FileSystem, name: string)
      requires Valid()
      modifies mSettings
      ensures Valid()
      ensures mSettings.data == AfterDelete(fs, old(mSettings.data), name)
    {
      var path := if fs(name).isFile then fs(name).path else name;
      var folders := RecentBrowserFolders();
      folders := RemoveFolder(fs, path, folders);
      WriteRecentBrowserFolders(fs, folders);
    }

    /** The loop that both of them remove entries with, moving the rest up in place. */
    static method RemoveFolder(fs: FileSystem, path: string, list: seq<string>) returns (folders: seq<string>)
      ensures folders == SkipRemoved(fs, path, list)
    {
      folders := list;
      var i := 0;
      while i < |folders|
        invariant 0 <= i <= |folders| + 1
        invariant SkipRemoved(fs, path, list)
                  == if i <= |folders| then folders[..i] + SkipRemoved(fs, path, folders[i..]) else folders
        decreases |folders| - i
      {
        var text := folders[i];
        var test := if fs(text).isFile then fs(text).path else text;
        RemovalStep(fs, path, folders, i);
        if test == path {
          folders := folders[..i] + folders[i + 1..];
        }
        i := i + 1;
      }
    }

    method WriteRecentBrowserFolders(fs: FileSystem, folders: seq<string>)
      requires Valid()
      modifies mSettings
      ensures Valid()
      ensures mSettings.data == Written(old(mSettings.data), PathsOf(fs, folders))
    {
      ghost var start, paths := mSettings.data - {LENGTH}, [];
      assert Prefix([]) + [FOLDERS, "size"] == LENGTH;
      assert folders[..0] == [];
      var index := 0;
      mSettings.BeginWriteArray(FOLDERS);
      for n := 0 to |folders|
        invariant mSettings.Valid() && mSettings.stack == [WriteArray(FOLDERS, index, index)]
        invariant paths == PathsOf(fs, folders[..n]) && index == |paths|
        invariant mSettings.data == Entries(start, paths)
      {
        PathsOfStep(fs, folders, n);
        var info := fs(folders[n]);
        if !info.found && !info.isFile {
          continue;
        }
        EntriesStep(start, paths, info.path);
        StoreFolder(index, info.path);
        index := index + 1;
        paths := paths + [info.path];
      }
      assert folders[..|folders|] == folders;
      mSettings.EndArray();
    }

    /** Selects entry i of the folders, opened for writing, and stores a path there. */
    method StoreFolder(i: nat, path: string)
      requires mSettings.Valid() && mSettings.stack == [WriteArray(FOLDERS, i, i)]
      modifies mSettings
      ensures mSettings.Valid() && mSettings.stack == [WriteArray(FOLDERS, i + 1, i + 1)]
      ensures mSettings.data == old(mSettings.data)[FolderKey(i) := Text(path)]
    {
      mSettings.SetArrayIndex(i);
      FolderCursor(mSettings.stack[0], i);
      mSettings.SetValue(["FileFolder"], Text(path));
    }
  }

  /** At the root the cursor adds nothing to a key. */
  lemma RootCursor()
    ensures forall key: Path :: Prefix([]) + key == key
  {
  }

  /** With entry slot - 1 of the recent images selected, relative keys address that slot. */
  lemma SlotCursor(f: Frame, slot: nat)
    requires !f.Group? && f.name == RECENT && f.num == slot > 0
    ensures Prefix([f]) + ["FileName"] == NameKey(RECENT, slot)
    ensures Prefix([f]) + ["IsWriteProtected"] == ProtectedKey(RECENT, slot)
    ensures Prefix([f]) + EntryKey(RECENT, slot) == EntryKey(RECENT, slot) + EntryKey(RECENT, slot)
  {
    PrefixOfOne(f);
  }

  /** With entry i of the browser folders selected, the relative key addresses that entry. */
  lemma FolderCursor(f: Frame, i: nat)
    requires !f.Group? && f.name == FOLDERS && f.num == i + 1
    ensures Prefix([f]) + ["FileFolder"] == FolderKey(i)
  {
    PrefixOfOne(f);
  }

  /** One round of the removal loop: a match takes the next entry with it past the index. */
  lemma RemovalStep(fs: FileSystem, path: string, folders: seq<string>, i: nat)
    requires i < |folders|
    ensures var removed := folders[..i] + folders[i + 1..];
            var done := folders[..i] + SkipRemoved(fs, path, folders[i..]);
            if Matches(fs, path, folders[i])
            then done
                 == if i + 1 <= |removed| then removed[..i + 1] + SkipRemoved(fs, path, removed[i + 1..]) else removed
            else done == folders[..i + 1] + SkipRemoved(fs, path, folders[i + 1..])
  {
    var rest := folders[i..];
    var removed := folders[..i] + folders[i + 1..];
    if !Matches(fs, path, folders[i]) {
      assert rest[1..] == folders[i + 1..];
      Associative(folders[..i], [folders[i]], SkipRemoved(fs, path, rest[1..]));
      assert folders[..i] + [folders[i]] == folders[..i + 1];
    } else if |rest| == 1 {
      assert folders[i + 1..] == [];
    } else {
      assert rest[2..] == folders[i + 2..] == removed[i + 1..];
      Associative(folders[..i], [rest[1]], SkipRemoved(fs, path, rest[2..]));
      assert removed[..i + 1] == folders[..i] + [rest[1]];
    }
  }
}
