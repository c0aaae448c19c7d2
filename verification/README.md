# RespeQt: the settings store and its neighbours, verified

RespeQt emulates Atari peripherals on a PC. This project models the parts of it that keep persistent state and proves
what that state looks like after any call and after any run of calls:

- **The settings store** (`SettingsStore.dfy`): a class that maps key paths to values and is read and written relative
  to a cursor of nested groups and arrays. Array entry `i` lives under `<name>/<i+1>/...`, the length under
  `<name>/size`; numbers in keys are decimal text (`Decimal.dfy`), and keys are case-sensitive.
- **Copying settings** (`Overlay.dfy`, `Session.dfy`): the recursive, cursor-driven copy of one store into another,
  which is proved to be a flat override of maps, and the session files built on it.
- **The image tables** (`Tables.dfy`, `RecentNames.dfy`, `ImageTables.dfy`, `ImageRuns.dfy`, `SettingsLayout.dfy`):
  mounting, unmounting and swapping disk images, once as literal store operations with their exact index arithmetic
  and once as simple operations on two tables. Every run on the store refines the same run on the tables; the
  invariants are proved on the tables.
- **The browser folders** (`BrowserFolders.dfy`, `StoredFolders.dfy`): the array of recent folders, its in-place
  removal loop and its cap.
- **The Atari DOS file system** (`SectorBitmap.dfy`, `DosDisk.dfy`, `DosFiles.dfy`, `DosErasing.dfy`,
  `DosReading.dfy`, `DosRuns.dfy`, `DosListing.dfy`, `DosLayout.dfy`, `DosExamples.dfy`, `Dos10FileSystem.dfy`):
  inserting, listing, extracting and erasing files of a 720-sector disk. Every safe run keeps the disk sound and
  refines the same run on a map from file numbers to names and contents. `DosLayout.dfy` states what is read and
  written on any disk in terms of its bytes: the bits of the sector bitmap, the links of the chains, the entries.
- **Recursive deletion** (`FileTree.dfy`), **path splitting** (`Paths.dfy`), **the ATASCII codec** with its one shared
  table (`Atascii.dfy`), and **the inverted sector status register** (`AtxSector.dfy`).

`RespeqtSettings.dfy` and `Dos10FileSystem.dfy` hold the classes themselves: each of their methods is proved against a
specification function of the modules above, which determines the whole store, or the whole disk, after the call. The
long `mountImage` is split into one method per loop, and the removal loop that two methods of the program repeat is
one method here.

## What the code does differently from what it seems meant to do

Where a property one would expect fails, the model keeps the code as it is, a lemma gives an input that shows the
failure, and another gives the exact condition under which the property holds.

- Unmounting does not put the image into recent slot 0: the record it reads is never stored, so slot 0 is emptied
  (`UnmountRecordsImageIff`). The image stays listed only if another slot has its name (`UnmountedStaysListedIff`,
  `UnmountForgetsExample`). The name in slot 0 and the one in the slot with the drive's number get lost
  (`ForgetKeepsAnyIff`, `ForgetKeepsIff`, `UnmountDropsLatestExample`).
- Mounting a known name again empties the slots above it instead of moving them up (`KnownNameKeepsAnyIff`,
  `KnownNameKeepsIff`, `RememberLosesExample`), because inside the array the record key is relative to the selected
  entry. With a full list a new name replaces the one mounted before it (`NewNameKeepsAnyIff`,
  `EleventhMountExample`).
- The scan for a known name does not look at slot 0, so a name can be shown twice, in slot 0 and in another
  (`MountedTwiceIff`, `RememberKeepsDistinctIff`, `MountedTwiceExample`).
- Saving a session does not clear its file, and loading does not remove settings made since. Settings of an earlier
  session in the same file come back (`RestoreExactIff`, `StaleDriveReturns`, `StaleDriveExample`), and later ones
  stay (`RestoreKeepsLaterMount`).
- Loading can list a recent name twice (`LoadKeepsRecentIff`, `LoadDuplicatesExample`), and in such a list other
  losses occur than in one without repeats (`ForgetRepeatedExample`).
- The folder removal loop skips the entry after each one it removes (`RemovesAllIff`, `SkipRemovedSurvive`,
  `RemovalSkipsExample`), and a deleted folder can be stored afterwards (`StillStoredIff`, `StillStoredFromInsideIff`,
  `DeleteStoresExample`).
- Every rewrite of the folder list replaces each folder by its path, so a directory is stored as its parent
  (`SetIsFrontIff`, `SetFrontExample`, `StoredUnchangedIff`), and a folder can be stored twice
  (`SetStoresDistinctIff`, `DeleteStoresDistinctIff`, `SetRepeatsExample`).
- Blanks do not survive the base ATASCII table (`BaseTextUnchangedIff`), and constructing one codec object changes
  what all others decode and encode (`BaseObjectDecodesIff`, `InternationalObjectDecodesIff`, `ObjectEncodesIff`,
  `TwoCodecsExample`).
- The first sector of a file is decoded from plain `char` bytes. Where `char` is signed and its low byte is above 127,
  the file cannot be extracted, and erasing it frees another sector or reads the bitmap out of bounds
  (`EraseSoundIff`, `EraseDamages`, `TwoFilesExample`). The length byte of a sector has the same fault on double
  density (`DoubleDensityExample`). The size in bytes is cut to 16 bits, so longer files are extracted short on every
  platform (`LongFileExample`). `ExtractIff` and `InsertThenExtractIff` give the exact conditions.
- Setting the sector status can only clear bits (`ReadsBackIff`, `LostRequestExample`).
- Splitting a path that mixes separators does not yield its last component (`SplitOnWindowsIff`,
  `MixedSeparatorsExample`).

## Model

| member | source | states |
|---|---|---|
| Decimal.Injective | src/respeqtsettings.cpp:279-287 | distinct slot numbers never share a key, so writing one slot cannot disturb another |
| Decimal.Notation | src/respeqtsettings.cpp:279-287 | numbers in keys are decimal, digit by digit |
| Decimal.ReadBack | src/respeqtsettings.cpp:866 | a number of 32 bits written as text is read back |
| RespeqtSettings.RespeqtSettings.constructor | src/respeqtsettings.cpp:22-26 | opening the settings reports whether this is the first run, and changes only the stored first-time flag |
| SettingsStore.TextToBool | src/respeqtsettings.cpp:280 | a text reads as false iff it is empty, a zero, or the word false in any case |
| SettingsStore.StoredAsText | src/respeqtsettings.cpp:274-290 | truth values and numbers of 32 bits read the same when a file keeps them as text |
| RespeqtSettings.RespeqtSettings.CopySettings | src/respeqtsettings.cpp:40-56 | for distinct stores at any cursors, the target becomes the flat overlay of the source subtree, the source and both cursors are as on entry, and the recursion terminates |
| Overlay.OverlaidExactly | src/respeqtsettings.cpp:40-56 | the overlay gives each key below the source cursor its value at the same place below the target cursor, and changes no other key |
| Overlay.ProgressEnd | src/respeqtsettings.cpp:42-48 | copying all child keys and all child groups, listed in whatever order and even when a name is both, covers the whole subtree |
| Overlay.ProgressGroup | src/respeqtsettings.cpp:48-55 | copying one child group recursively, on top of a partial copy, adds exactly the keys below that group |
| Overlay.ChildGroupDeeper | src/respeqtsettings.cpp:48-52 | a child group is listed only if a key at least two levels deeper exists, which bounds the recursion by the longest key |
| Overlay.OverlaidAtRoot | src/respeqtsettings.cpp:59-72 | with both cursors at the root the copy is plain map override |
| RespeqtSettings.RespeqtSettings.SaveSessionToFile | src/respeqtsettings.cpp:59-64 | the file afterwards is its old contents overridden by the live settings, which are unchanged |
| RespeqtSettings.RespeqtSettings.LoadSessionFromFile | src/respeqtsettings.cpp:67-72 | the live settings afterwards are the old ones overridden by the file |
| Session.RestoreExactIff | src/respeqtsettings.cpp:58-72 | after a save to any file and any later changes, a load gives every saved setting its saved value, and other settings what the file held before or else their present value; it restores the saved state exactly iff neither the file nor the present state had a key that was not saved |
| Session.RestoreKeepsLaterMount | src/respeqtsettings.cpp:66-72 | an image mounted after the save in a drive that neither the session nor the old file mentions stays mounted after the load |
| Session.RestoresStoredDrive | src/respeqtsettings.cpp:276-301 | a drive whose two settings were saved reads as it did when saved, whatever the file held before |
| Session.StaleDriveReturns | src/respeqtsettings.cpp:59-72 | a drive that was not saved, but that the file held before, reads after the load as in the old file |
| Session.StaleDriveExample | src/respeqtsettings.cpp:59-72 | a drive saved once and then, empty, saved again to the same file shows its old image after the load |
| Session.SavesAccumulate | src/respeqtsettings.cpp:59-72 | loading a file that several states were saved to is the same as loading each of them in turn |
| ImageTables.LoadedView | src/respeqtsettings.cpp:67-72 | loading overlays both tables field by field and the other settings key by key |
| Session.LoadKeepsRecentIff | src/respeqtsettings.cpp:67-72 | from a list without repeats, in slots 1..9 and likewise in 0..9, a load keeps it so iff the file's own list has no repeats and no name the file stores in one slot sits live in another such slot the file does not store |
| Session.LoadDuplicatesExample | src/respeqtsettings.cpp:59-72 | a session saved with a mounted, loaded after b and then a were mounted: the name of a is in recent slots 8 and 9 |
| RespeqtSettings.RespeqtSettings.MountedImageSetting | src/respeqtsettings.cpp:276-282 | reads the drive entry of that number, defaults included |
| RespeqtSettings.RespeqtSettings.RecentImageSetting | src/respeqtsettings.cpp:284-290 | reads the recent entry of that number, defaults included |
| RespeqtSettings.RespeqtSettings.SetMountedImageProtection | src/respeqtsettings.cpp:292-295 | writes one key of one drive |
| RespeqtSettings.RespeqtSettings.SetMountedImageSetting | src/respeqtsettings.cpp:297-301 | writes both keys of one drive |
| RespeqtSettings.RespeqtSettings.MountImage | src/respeqtsettings.cpp:303-348 | the whole store after a mount, for an empty, a known and a new name |
| RespeqtSettings.RespeqtSettings.FindRecent | src/respeqtsettings.cpp:309-319 | the array scan finds the first of slots 1 to 10 with the name, or none, and changes nothing |
| RespeqtSettings.RespeqtSettings.ShiftRecent | src/respeqtsettings.cpp:322-329 | the array write rewrites the slots from the found one to 9 from records read under the selected entry, and leaves the array length it implies |
| RespeqtSettings.RespeqtSettings.ChooseSlot | src/respeqtsettings.cpp:333-341 | the scan that rereads slot 11 and then the last choice ends at the free slot specified for a new name |
| RespeqtSettings.RespeqtSettings.UnmountImage | src/respeqtsettings.cpp:350-364 | the whole store after an unmount, the nine identical rewrites included |
| RespeqtSettings.RespeqtSettings.SwapImages | src/respeqtsettings.cpp:366-372 | the whole store after a swap, also of a drive with itself |
| Tables.FirstSlotIsLeast | src/respeqtsettings.cpp:312-318 | the scan result is the least slot holding the name |
| Tables.NewNamePlacement | src/respeqtsettings.cpp:332-342 | with slot 11 empty the chosen slot is k iff slots 1..k are empty and k is 9 or slot k+1 is in use |
| Tables.RememberNewName | src/respeqtsettings.cpp:332-345 | a name not listed changes only that slot, and an existing name is overwritten only in slot 0 |
| Tables.RememberKnownName | src/respeqtsettings.cpp:311-345 | a name in slot s moves to slot 9 with its new flag, is unique there, slots s to 8 become empty, and slots below s are untouched |
| Tables.RememberAny | src/respeqtsettings.cpp:309-345 | in any table, what a mount does for a name found in slots 1 to 10, and for one not found, with slot 11 in use or not |
| RecentNames.KnownNameKeepsAnyIff | src/respeqtsettings.cpp:309-331 | in any list, mounting a name found by the scan again keeps all names of slots 0..9 iff every other name from its slot on is also in a slot below |
| RecentNames.KnownNameKeepsIff | src/respeqtsettings.cpp:321-331 | in a list without repeats in 1..9: iff every slot in use above its own repeats the name in slot 0 |
| RecentNames.NewNameKeepsAnyIff | src/respeqtsettings.cpp:309-345 | in any list, mounting a name the scan does not find keeps all names iff slot 0 is not overwritten, or is empty, holds that name, or repeats another slot |
| RecentNames.NewNameKeepsIff | src/respeqtsettings.cpp:332-345 | in a list without repeats in 1..9, for a name not in 1..9: under the same condition |
| RecentNames.RememberLosesExample | src/respeqtsettings.cpp:321-331 | mounting two images and then the second again drops the first from the list |
| RecentNames.MountedTwiceIff | src/respeqtsettings.cpp:311-345 | a mount leaves its name in slot 0 and in 1..9 at once iff slot 0 holds it already and it is in 1..9 or the free slot is above 0 |
| RecentNames.RememberKeepsDistinctIff | src/respeqtsettings.cpp:303-348 | a list without repeated names in 0..9 stays so over a mount iff the mount does not repeat slot 0 |
| Tables.RememberKeepsOk | src/respeqtsettings.cpp:303-348 | a mount keeps names unique in slots 1..9 and slots outside 0..9 empty, and the chosen slot is in 0..9 |
| RecentNames.ForgetKeepsAnyIff | src/respeqtsettings.cpp:350-363 | in any list, an unmount keeps all names of slots 0..9 iff the names in slot 0 and in the slot numbered like the drive are also in other slots |
| RecentNames.ForgetKeepsIff | src/respeqtsettings.cpp:350-363 | in a list without repeats in 1..9: iff the slot numbered like the drive, from 1 to 9, is unused, and slot 0 is empty or repeats another slot |
| RecentNames.ForgetRepeatedExample | src/respeqtsettings.cpp:350-363 | with one name in slots 8 and 9 only, unmounting drive 8 loses no name although slot 8 is in use |
| RecentNames.ListedAfterForgetIff | src/respeqtsettings.cpp:350-363 | after an unmount a name is listed iff it was in a slot of 1..9 other than the drive's number |
| Tables.FillStep | src/respeqtsettings.cpp:332-345 | one more distinct name continues the fill order 9, 8, ..., 1, then 0 |
| Tables.ExchangePermutes | src/respeqtsettings.cpp:366-372 | a swap conserves the multiset of mounted images |
| ImageTables.MountedView | src/respeqtsettings.cpp:303-348 | the store after a mount shows exactly the two tables the simple operations predict, with all other settings unchanged |
| ImageTables.ShiftedView | src/respeqtsettings.cpp:323-328 | as no stored value is an image record, the shift empties the slots it was meant to fill |
| ImageTables.UnmountedView | src/respeqtsettings.cpp:350-364 | an unmount empties the drive, recent slot 0 and the recent slot of the drive's number, and nothing else |
| ImageTables.SwappedView | src/respeqtsettings.cpp:366-372 | a swap exchanges two drives and changes neither the recent images nor any other setting |
| ImageTables.ProtectedView | src/respeqtsettings.cpp:292-295 | setting the protection of a drive keeps its file name and everything else |
| SettingsLayout.MountLayout | src/respeqtsettings.cpp:342-347 | the four keys and values that the first mount writes |
| SettingsLayout.MountNothing | src/respeqtsettings.cpp:305-307 | mounting without a name changes nothing |
| SettingsLayout.ShiftLayout | src/respeqtsettings.cpp:322-329 | the keys that the shift writes, and the length 9, or 0 for a name found in slot 10 |
| SettingsLayout.ShiftedRecordRead | src/respeqtsettings.cpp:323-327 | the shift takes a record stored below the selected entry, and none from the entry itself |
| SettingsLayout.UnmountLayout | src/respeqtsettings.cpp:350-364 | the six keys that unmounting a drive of an empty store writes |
| SettingsLayout.RecordRead | src/respeqtsettings.cpp:352-361 | a record stored under the key of the drive would go to recent slot 0; any other value there counts as no image |
| SettingsLayout.ReadLayout | src/respeqtsettings.cpp:276-282 | a drive reads as no image at first, and as stored, with the flag as truth value or text |
| ImageRuns.RunRefines | src/respeqtsettings.cpp:59-372 | every run of mounts, unmounts, swaps, protections, saves, loads of any files and other setters on the store refines the run on the tables, and never stores an image record |
| ImageRuns.RunStaysValid | src/respeqtsettings.cpp:59-372 | no run of these calls stores a value under the empty key, so every store of a run is one the settings class can hold |
| ImageRuns.RunKeepsOk | src/respeqtsettings.cpp:303-372 | names stay unique in slots 1..9, and slots outside 0..9 empty, over every run whose loads are safe in the state they happen in |
| ImageRuns.StepKeepsOkIff | src/respeqtsettings.cpp:59-372 | one call keeps names unique in slots 1..9, and slots outside 0..9 empty, iff it is not a load of a file that breaks this |
| ImageRuns.StepKeepsDistinctIff | src/respeqtsettings.cpp:303-372 | one call keeps names unique in 0..9 iff it is neither a mount that repeats slot 0 nor a load that clashes or brings repeats of its own |
| ImageRuns.RunKeepsDistinct | src/respeqtsettings.cpp:303-372 | no run without such calls shows a name twice in slots 0..9 |
| ImageRuns.RecentImagesSound | src/respeqtsettings.cpp:59-372 | from a store without recent images, a run that loads only files safe at that moment never lists a name twice in slots 1..9 or uses a slot outside 0..9 |
| ImageRuns.FillOrderInStore | src/respeqtsettings.cpp:309-347 | mounting n distinct names fills slots 9 down to 1 in order; from the tenth on slot 0 holds the latest |
| ImageRuns.UnmountDropsLatestExample | src/respeqtsettings.cpp:350-363 | after ten mounts, unmounting any drive drops the name mounted last |
| ImageRuns.EleventhMountExample | src/respeqtsettings.cpp:332-345 | after ten mounts, an eleventh name drops the name mounted before it |
| ImageRuns.MountedTwiceExample | src/respeqtsettings.cpp:311-345 | after ten mounts, mounting the names of slot 1 and then slot 0 again shows the latter in slots 0 and 8 |
| ImageRuns.UnmountRecordsImageIff | src/respeqtsettings.cpp:352-361 | recent slot 0 receives the drive's image iff the drive was empty |
| ImageRuns.UnmountedStaysListedIff | src/respeqtsettings.cpp:350-363 | the unmounted image is still a recent name iff its name is in a slot of 1..9 other than the drive's number |
| ImageRuns.UnmountForgetsExample | src/respeqtsettings.cpp:350-364 | an image mounted and unmounted in an empty store is not in slot 0, and is still listed iff the drive was not number 9 |
| ImageRuns.MountThenUnmount | src/respeqtsettings.cpp:347-363 | mounting and then unmounting a drive leaves all drives as if it had only been emptied |
| ImageRuns.SwapRunPermutes | src/respeqtsettings.cpp:366-372 | any run of swaps conserves the multiset of mounted images |
| ImageRuns.SwapRunUndone | src/respeqtsettings.cpp:366-372 | repeating the swaps in reverse order restores both tables and all other settings |
| ImageRuns.SwapRunFrame | src/respeqtsettings.cpp:366-372 | a run of swaps leaves the recent images and all other settings alone |
| ImageRuns.SwapRunInStore | src/respeqtsettings.cpp:366-372 | the same for the store itself: permuted drives, everything else unchanged, undone by the reversed swaps |
| RespeqtSettings.RespeqtSettings.MostRecentBrowserFolder | src/respeqtsettings.cpp:854-860 | the first stored folder, or the empty name |
| RespeqtSettings.RespeqtSettings.RecentBrowserFolders | src/respeqtsettings.cpp:862-875 | reads the stored array up to its length and changes nothing |
| RespeqtSettings.RespeqtSettings.SetMostRecentBrowserFolder | src/respeqtsettings.cpp:923-949 | the whole store afterwards, including both early returns and the cap |
| RespeqtSettings.RespeqtSettings.DelMostRecentBrowserFolder | src/respeqtsettings.cpp:951-965 | the whole store afterwards |
| RespeqtSettings.RespeqtSettings.RemoveFolder | src/respeqtsettings.cpp:937-942 | the in-place loop leaves what the recursive description of skipping removal says |
| RespeqtSettings.RespeqtSettings.WriteRecentBrowserFolders | src/respeqtsettings.cpp:967-982 | stores the paths of the existing folders in order, with their number as length |
| BrowserFolders.RoundTrip | src/respeqtsettings.cpp:862-875 | a written list is read back as it was, whatever longer list the store held before |
| BrowserFolders.WrittenFrame | src/respeqtsettings.cpp:967-982 | writing a list changes only its entries and its length; stale entries stay in the store |
| BrowserFolders.RunLeavesHalf | src/respeqtsettings.cpp:937-942 | of a maximal run of m matching entries every second one stays, m/2 in all, independently of what surrounds the run |
| BrowserFolders.OthersStay | src/respeqtsettings.cpp:957-962 | all entries of other folders stay, in their order |
| BrowserFolders.RemovesAllIff | src/respeqtsettings.cpp:957-962 | the loop equals a plain filter iff no two neighbouring entries match |
| BrowserFolders.RemovalSkipsExample | src/respeqtsettings.cpp:957-962 | of two equal neighbouring entries the loop leaves one |
| BrowserFolders.DeleteSkipsExample | src/respeqtsettings.cpp:951-982 | after the deletion their folder's path is stored, if the folder exists |
| BrowserFolders.SkipRemovedSurvive | src/respeqtsettings.cpp:937-942 | the loop leaves, in order, exactly the entries that do not match or have an odd number of matching entries directly before them |
| BrowserFolders.StillStoredIff | src/respeqtsettings.cpp:951-982 | after a deletion an entry of the folder is stored iff the list before it had an existing entry whose path belongs to the folder, and which belongs to another folder or has an odd number of matching entries directly before it |
| BrowserFolders.StillStoredFromInsideIff | src/respeqtsettings.cpp:951-982 | when no neighbours match, iff the list held an existing entry of another folder whose path belongs to the deleted one |
| BrowserFolders.DeleteStoresExample | src/respeqtsettings.cpp:951-982 | deleting a folder from a list that holds only a directory inside it stores the deleted folder |
| BrowserFolders.RunKeepsCap | src/respeqtsettings.cpp:923-982 | no run of adding and deleting makes the stored list longer than 100 entries, however the file system changes meanwhile |
| BrowserFolders.FrontAfterSet | src/respeqtsettings.cpp:923-949 | after adding a name, its path is the most recent folder, or the old one when nothing is written |
| BrowserFolders.SetIsFrontIff | src/respeqtsettings.cpp:923-949 | a name becomes the most recent folder iff it already was, or it exists and is its own path |
| BrowserFolders.SetFrontExample | src/respeqtsettings.cpp:943-979 | adding a directory to an empty list makes its parent the most recent folder |
| BrowserFolders.StoredUnchangedIff | src/respeqtsettings.cpp:967-982 | storing a list keeps it as it is iff every entry exists and is its own path |
| StoredFolders.SetStoresDistinctIff | src/respeqtsettings.cpp:923-982 | after setting a folder the stored list is free of repeats iff, among the positions that survive and stay within the cap, no two existing entries share a path and none has the path of the new name |
| StoredFolders.DeleteStoresDistinctIff | src/respeqtsettings.cpp:951-982 | after a deletion it is iff no two surviving existing entries share a path |
| StoredFolders.SetRepeatsExample | src/respeqtsettings.cpp:923-982 | setting /g/h on a list of /e and the root stores /g and the root twice |
| StoredFolders.DeletedExactly | src/respeqtsettings.cpp:951-982 | a deletion stores exactly the paths of the existing entries whose folder is not that of the name, or before which an odd run of entries of its folder ends; a file counts as its folder |
| StoredFolders.SetExactly | src/respeqtsettings.cpp:923-982 | setting a name changes nothing if it is the front or does not exist; otherwise its path and those of the same entries, within the cap, are stored |
| StoredFolders.DeletedFileExactly | src/respeqtsettings.cpp:951-982 | without matching neighbours, deleting a file removes exactly its directory and the files in that directory |
| StoredFolders.CapDropsLast | src/respeqtsettings.cpp:943-946 | with fewer than 100 entries left all of them stay; otherwise the last one goes |
| StoredFolders.CapPositionIff | src/respeqtsettings.cpp:945 | the cap cuts no position iff fewer than 100 entries are left |
| StoredFolders.FileExample | src/respeqtsettings.cpp:923-965 | setting a file on a list with its directory replaces that entry, and deleting the file removes it |
| StoredFolders.LayoutExample | src/respeqtsettings.cpp:967-982 | the keys of a stored list of two folders |
| SectorBitmap.FreeAfter | src/filesystems/atarifilesystem.cpp:149-159 | clearing or setting the bit of a sector takes exactly that sector out of the free ones, or adds it |
| SectorBitmap.FoundFreeMeaning | src/filesystems/atarifilesystem.cpp:127-147 | the search finds a free sector iff there is one, and skips no free sector from its start on |
| Dos10FileSystem.Dos10FileSystem.constructor | src/filesystems/dos10filesystem.cpp:9-14 | opening a disk reads the bitmap and the free count from sector 360 |
| Dos10FileSystem.Dos10FileSystem.FindFreeSector | src/filesystems/atarifilesystem.cpp:127-147 | the search with its one restart yields the specified sector |
| Dos10FileSystem.Dos10FileSystem.AllocateSector | src/filesystems/atarifilesystem.cpp:149-153 | clears one bit and counts down, wrapping at 16 bits |
| Dos10FileSystem.Dos10FileSystem.FreeSector | src/filesystems/atarifilesystem.cpp:155-159 | sets one bit and counts up, wrapping at 16 bits |
| Dos10FileSystem.Dos10FileSystem.GetEntries | src/filesystems/dos10filesystem.cpp:16-42 | lists the entries up to the first empty one, without deleted ones |
| Dos10FileSystem.Dos10FileSystem.FindFreeFileNo | src/filesystems/dos10filesystem.cpp:409-424 | the least number of an empty or deleted entry, or -1 |
| Dos10FileSystem.Dos10FileSystem.WriteBitmap | src/filesystems/dos10filesystem.cpp:426-435 | writes bitmap and free count into sector 360 and leaves its other bytes |
| Dos10FileSystem.Dos10FileSystem.WriteFile | src/filesystems/dos10filesystem.cpp:178-241 | the sector-by-sector loop of insert leaves the disk that the recursive description of the chain says, or fails as it does |
| Dos10FileSystem.Dos10FileSystem.Insert | src/filesystems/dos10filesystem.cpp:127-278 | the whole disk after an insertion, the failures included |
| Dos10FileSystem.Dos10FileSystem.ExtractTo | src/filesystems/dos10filesystem.cpp:48-125 | the bytes written to the target and whether it succeeded |
| Dos10FileSystem.Dos10FileSystem.Erase | src/filesystems/dos10filesystem.cpp:357-396 | the whole disk after an erasure, the failures included |
| DosDisk.WriteChainEffect | src/filesystems/dos10filesystem.cpp:178-241 | writing a file into enough free sectors adds a well-linked chain that holds its bytes, takes exactly its sectors from the free ones, and changes no other sector |
| DosDisk.ChainFrame | src/filesystems/dos10filesystem.cpp:48-125 | a chain whose sectors are untouched keeps its links and its bytes |
| DosDisk.SectorsForIff | src/filesystems/dos10filesystem.cpp:157-160 | the bytes fit the free space iff the sectors for them are not more than the free ones |
| DosFiles.OpenedAfterWriting | src/filesystems/dos10filesystem.cpp:9-14 | opening a disk whose bitmap has been written yields the bitmap and count in memory |
| DosFiles.InsertStores | src/filesystems/dos10filesystem.cpp:127-278 | a file that fits is stored with its name under the least unused number; the disk stays sound, all other files keep their names and bytes, and the free count drops by the sectors needed |
| DosFiles.InsertOkIff | src/filesystems/dos10filesystem.cpp:127-278 | an insertion succeeds iff an entry is free and enough sectors are; otherwise nothing changes |
| DosErasing.ChainDistinct | src/filesystems/dos10filesystem.cpp:357-396 | no sector stands twice in the chain of a file |
| DosErasing.ChainsPartition | src/filesystems/dos10filesystem.cpp:127-278 | on a sound disk two files share no sector, and a sector is marked free iff it is in no chain |
| DosErasing.ReleaseEffect | src/filesystems/dos10filesystem.cpp:371-390 | the loop of erase frees exactly the sectors of a sound chain and counts them |
| DosErasing.EraseRemoves | src/filesystems/dos10filesystem.cpp:357-396 | erasing a file removes it, frees exactly its sectors, and keeps the disk sound with the names and bytes of all other files |
| DosErasing.EraseSoundIff | src/filesystems/dos10filesystem.cpp:357-396 | erasing finishes, and keeps the disk sound, iff char is unsigned or the low byte of the first sector is below 128 |
| DosErasing.EraseDamages | src/filesystems/dos10filesystem.cpp:357-396 | otherwise, for a first sector above 255, it marks a sector of another file free if the sector 256 lower was in use |
| DosLayout.SearchMeaning | src/filesystems/atarifilesystem.cpp:127-147 | on any bitmap the search yields the next sector from 4 to 719 whose bit is set, cyclically, or 0 |
| DosLayout.AllocationMeaning | src/filesystems/atarifilesystem.cpp:149-159 | taking or giving back a sector changes its bit alone, counted from the most significant one, and the count by one modulo 65536 |
| DosLayout.EntryMeaning | src/filesystems/ataridirentry.cpp:79-125 | name, size, first sector and attributes decoded from the sixteen bytes of an entry with any flag |
| DosLayout.ListedIff | src/filesystems/dos10filesystem.cpp:16-42 | on any disk an entry is listed iff no flag up to it is 0, its own has 0x80 clear, and not both bits of 0x41 set |
| DosLayout.LockedExample | src/filesystems/dos10filesystem.cpp:27-33 | a locked file is listed, one open for writing is not |
| DosLayout.FreeNumberMeaning | src/filesystems/dos10filesystem.cpp:409-424 | a new file gets the least entry with flag 0 or 0x80 |
| DosLayout.InsertedEntry | src/filesystems/dos10filesystem.cpp:243-267 | an insertion writes flag 0x42, the number of sectors, the first sector and the name, and no other entry |
| DosLayout.InsertedChainRaw | src/filesystems/dos10filesystem.cpp:181-241 | an inserted file is linked by the last three bytes of its sectors; all but the last are full, and together they hold its bytes |
| DosLayout.InsertedVacancy | src/filesystems/dos10filesystem.cpp:127-278 | its sectors were vacant and are no longer, as many as needed, and no other sector changes in that |
| DosLayout.InsertedLayout | src/filesystems/dos10filesystem.cpp:127-278 | no other sector is written but those of its entry and of the bitmap, which holds bitmap and count |
| DosLayout.ErasedLayout | src/filesystems/dos10filesystem.cpp:357-396 | on any disk an erasure writes 0x80 into the entry, and the sector of the bitmap iff it finishes, and nothing else |
| DosLayout.ReadMeaning | src/filesystems/dos10filesystem.cpp:57-122 | on any chain of any disk, MyDOS links included, n sectors are read to the end or the link 0, or up to a missing or foreign sector, where it fails |
| DosLayout.ChunkMeaning | src/filesystems/dos10filesystem.cpp:75-84 | how many bytes are taken from a sector, for DOS 1.0 files too, and with signed or unsigned bytes |
| DosLayout.ReleaseMeaning | src/filesystems/dos10filesystem.cpp:371-391 | on any such chain exactly its sectors are given back; a missing or foreign sector is given back too before it fails |
| DosLayout.WideLinkExample | src/filesystems/dos10filesystem.cpp:71-73 | in a MyDOS file the link bytes 1 and 5 lead to sector 261 |
| DosLayout.SectorCounts | src/filesystems/dos10filesystem.cpp:57-372 | the sectors read or released for some sizes, that of a directory included |
| DosLayout.WrongCountExample | src/filesystems/dos10filesystem.cpp:157-241 | with a count that promises more than the bitmap has, an insertion fails after a sector has been written |
| DosLayout.EmptyFileExample | src/filesystems/dos10filesystem.cpp:157-278 | with a count of 0 an empty file is inserted, and the count wraps to 65535 |
| DosReading.ExtractIff | src/filesystems/dos10filesystem.cpp:48-125 | a file is extracted as it is iff its sectors make up less than 64 KB and, with signed char, its first sector has a low byte below 128 and, on double density, it has fewer than 128 bytes |
| DosRuns.InsertThenExtractIff | src/filesystems/dos10filesystem.cpp:48-278 | an inserted file is extracted unchanged iff it is short enough and, with signed char, the least free sector and its length allow it |
| DosRuns.InsertThenErase | src/filesystems/dos10filesystem.cpp:127-396 | erasing a file just inserted gives back the same files, free sectors and free count |
| DosExamples.InsertedAt128Example | src/filesystems/ataridirentry.cpp:117-118 | when sector 128 is the least free one, with signed char the file inserted next is extracted as nothing and its erasure leaves the bitmap's bounds |
| DosExamples.InsertTakesLowest | src/filesystems/atarifilesystem.cpp:127-147 | a file takes the lowest free sectors |
| DosExamples.TwoFilesExample | src/filesystems/dos10filesystem.cpp:127-396 | two insertions on an empty disk, the first of 124 sectors, lead to that state |
| DosExamples.LongFileExample | src/filesystems/dos10filesystem.cpp:57 | a file of 65625 bytes, inserted on an empty disk, is not extracted as it was on any platform |
| DosExamples.DoubleDensityExample | src/filesystems/dos10filesystem.cpp:75-77 | neither is one of 128 bytes on an empty double density disk, with signed char |
| DosRuns.StepSoundIff | src/filesystems/dos10filesystem.cpp:127-396 | one insertion or erasure keeps a sound disk sound iff it does not erase a file whose first sector is wrongly decoded |
| DosRuns.RunRefines | src/filesystems/dos10filesystem.cpp:127-396 | every run without such erasures keeps the disk sound and does to its files, names and bytes, and its free count what the run on a map of files does |
| DosRuns.UnsignedRunSafe | src/filesystems/ataridirentry.cpp:117-118 | with unsigned char every run is one |
| DosRuns.VolumeRunConserves | src/filesystems/dos10filesystem.cpp:127-396 | the free sectors and those of the files together never change in number |
| DosRuns.CapacityConserved | src/filesystems/dos10filesystem.cpp:44-46 | on every such run from an empty disk they are 707 |
| DosListing.ListingIff | src/filesystems/dos10filesystem.cpp:16-42 | the listing shows exactly the files, each decoded from its entry |
| DosListing.RunLists | src/filesystems/dos10filesystem.cpp:16-42 | after every such run the directory lists exactly the files that the run on the map leaves, under their names |
| FileTree.Volume.Deltree | src/miscutils.cpp:16-31 | the tree after a recursive deletion holds exactly the entries that are spared, with any order of listings; the recursion terminates |
| FileTree.SurvivorsBelow | src/miscutils.cpp:16-31 | at or below the deleted entry survive exactly the hidden entries, what lies inside them, and the directories that contain one |
| FileTree.OutsideUntouched | src/miscutils.cpp:16-31 | nothing outside the deleted entry changes |
| FileTree.GoneIff | src/miscutils.cpp:16-31 | the entry goes with everything in it iff nothing below it is hidden |
| FileTree.HiddenIff | src/miscutils.cpp:20 | hidden names are a dot followed by anything |
| FileTree.DeletionExample | src/miscutils.cpp:16-31 | a directory with a file and a hidden file loses the file only |
| FileTree.GoneExample | src/miscutils.cpp:16-31 | without the hidden file it goes |
| FileTree.DeletingTwice | src/miscutils.cpp:16-31 | deleting again changes nothing |
| FileTree.DeletionsCommute | src/miscutils.cpp:16-31 | the order in which two separate entries are deleted does not matter |
| FileTree.PrunedDir | src/miscutils.cpp:20-27 | after the shown children are gone, removing the directory succeeds exactly when it should not be spared |
| FileTree.PrunedChildrenStep | src/miscutils.cpp:21-23 | deleting one child keeps what deleting the earlier children did |
| Paths.GetParentDir | src/miscutils.cpp:226-238 | the parent on either platform, with native separators converted both ways |
| Paths.ParentMeaning | src/miscutils.cpp:226-238 | the parent is what stands before the last separator, with all separators turned into backslashes iff the path has one; without a separator it is the path |
| Paths.RemovePrefixCuts | src/miscutils.cpp:240-246 | a proper prefix goes with the one character after it; a name equal to or not starting with the prefix is kept whole |
| Paths.SplitAndRejoin | src/miscutils.cpp:226-246 | parent, slash and rest make up the path again, and the rest has no slash |
| Paths.ParentHasOneLess | src/miscutils.cpp:226-238 | on either platform the parent has one separator less, and is the path itself iff there is none |
| Paths.FixedPointAfterSeparators | src/miscutils.cpp:226-238 | on either platform, iterating the parent reaches a fixed point without separators in exactly as many steps as the path has separators |
| Paths.SplitOnWindowsIff | src/miscutils.cpp:226-246 | with two separators, the rest is the last component iff the path has no backslash or no slash before its last separator |
| Paths.MixedSeparatorsExample | src/miscutils.cpp:226-246 | a mixed path whose parent is no prefix of it |
| Atascii.Codec.Atascii | src/atascii.cpp:5-139 | the constructor makes the shared table the base table, one step of the run described by TableAfter |
| Atascii.Codec.AtasciiInternational | src/atasciiinternational.cpp:4-40 | entry after entry is replaced in the shared table until it is the international one, the other step of that run |
| Atascii.Codec.Decode | src/atascii.cpp:142-144 | looks the byte up in the shared table, or throws |
| Atascii.Codec.Encode | src/atascii.cpp:146-153 | the ordered search through the shared table |
| Atascii.EncodedIsLeast | src/atascii.cpp:146-153 | encoding yields the least byte with the glyph, and throws exactly on glyphs no byte has |
| Atascii.InternationalTextRoundTrip | src/atasciiinternational.cpp:7-39 | every text of 7-bit bytes survives decoding and encoding under the international table |
| Atascii.BaseTextRoundTrip | src/atascii.cpp:10-138 | under the base table it survives with 0x0D and 0x20 turned into 0x02 |
| Atascii.BaseTextUnchangedIff | src/atascii.cpp:10-153 | hence unchanged iff it contains neither of these two bytes |
| Atascii.EncodeThenDecode | src/atascii.cpp:142-153 | under any table a text can be encoded iff all its glyphs are mapped, and then decodes to itself |
| Atascii.DecodesIff | src/atascii.cpp:142-144 | a text can be decoded iff all its bytes are mapped, glyph by glyph; otherwise the lookup throws |
| Atascii.PrintableBytes | src/atascii.cpp:42-138 | the printable bytes decode to themselves under both tables |
| Atascii.LastConstructorDecides | src/atascii.cpp:4-139 | after any constructions the table depends only on the last one, and its domain is 0x00..0x7F |
| Atascii.BaseObjectDecodesIff | src/atasciiinternational.cpp:4-40 | an object decodes a byte by the base table iff the last constructor was the base one or the byte is not one whose glyph changed |
| Atascii.InternationalObjectDecodesIff | src/atasciiinternational.cpp:4-40 | the same for an object of the international table |
| Atascii.ObjectEncodesIff | src/atascii.cpp:146-153 | an object of either kind encodes a glyph as its own table does iff the last constructor was of its kind, or the glyph is that of an unchanged byte other than 0x20, or is in neither table |
| Atascii.TwoCodecsExample | src/atasciiinternational.cpp:4-8 | constructing an international codec changes what an older base codec decodes |
| AtxSector.AtxSectorInfo.constructor | include/diskimages/atxsectorinfo.h:21-26 | a new sector has no data and no weak offset |
| AtxSector.AtxSectorInfo.SetWd1771Status | include/diskimages/atxsectorinfo.h:42-43 | the status becomes the old status AND the requested one, the fixed bits set |
| AtxSector.AtxSectorInfo.SetSectorData | include/diskimages/atxsectorinfo.h:36-37 | replaces the data; the size is doubled exactly in the doubling state |
| AtxSector.StatusBits | include/diskimages/atxsectorinfo.h:42 | bits 0, 6 and 7 of the status are always set, and each other bit iff it is clear in the register |
| AtxSector.RegisterBits | include/diskimages/atxsectorinfo.h:43 | a request sets bits 1 to 5 of the register where it has them clear, and no other bit |
| AtxSector.DoublesIff | include/diskimages/atxsectorinfo.h:36 | the size is doubled iff the register has bits 1 and 2 set and bit 3 clear |
| AtxSector.StatusExamples | include/diskimages/atxsectorinfo.h:36-42 | the status and the doubling of some registers, 0x40 among them |
| AtxSector.StatusAfterRun | include/diskimages/atxsectorinfo.h:42-43 | after any run of requests the status is the initial one AND all of them |
| AtxSector.MeetIsGreatest | include/diskimages/atxsectorinfo.h:43 | the accumulated request is the greatest lower bound of all requests |
| AtxSector.OrderIrrelevant | include/diskimages/atxsectorinfo.h:42-43 | two runs requesting the same values, in any order and number, end in the same status |
| AtxSector.ClearedStaysCleared | include/diskimages/atxsectorinfo.h:42-43 | a cleared bit never comes back |
| AtxSector.DoublesOneStretch | include/diskimages/atxsectorinfo.h:36-43 | doubling, once switched off again, never returns |
| AtxSector.ReadsBackIff | include/diskimages/atxsectorinfo.h:42-43 | a request reads back iff it only clears bits |
| AtxSector.LostRequestExample | include/diskimages/atxsectorinfo.h:42-43 | a request to raise a cleared bit is lost |

## Left out

- Plain getter and setter pairs of the settings: one-line wrappers; in `ImageRuns` they appear as the call `Other`.
- `getImageSettingsFromName`: its key spelling makes the answer depend on the case rules of the storage backend.
- `buildBrowserFolders` and `isDiskImage`: a loop over the list read here that calls the deletion proved here.
- `setDbDataSource`, `DbIni`, `DbJson`, `DbSettings`: what they mean is decided elsewhere.
- File types, gzip files, window geometry, dialogs, printers, the SIO protocol, disk image formats and the processor
  cores.
- Details of the Qt store: conversion of values to text in INI files, key escaping, fallback scopes, two stores on one
  file.
- Text to number conversion covers plain decimal text only, not surrounding blanks or a plus sign.
- Names in keys are taken as single path segments; an empty group name, which Qt ignores, is an ordinary segment here.
- Removing a key removes that key only; the array write that uses it removes a length, which has no sub-keys.
- Atari DOS: subdirectories, renaming, the choice of a free file name, text conversion, and the variants with larger
  bitmaps (DOS 2.5, MyDOS) or another file system (SpartaDOS); entries with MyDOS or DOS 1.0 flags are read as such
  (`DosLayout.ReadMeaning`).
- Atari DOS: the disk has 720 sectors of one size, and access to a sector fails only if it does not exist; message
  boxes, the host's file errors and the bytes that pad a sector, which are taken as zero.
- Deltree: hidden names are those starting with a dot; symbolic links, special files and deletions that fail for other
  reasons are not part of the file tree.
- The file system behind the browser folders is a fixed function during one call; it may differ between calls.
- Static data and inheritance of the codec: the shared table is an object that all codec objects point to, and the
  derived class is a second constructor.
