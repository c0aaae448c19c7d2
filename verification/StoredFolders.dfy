/** What the list of recent folders holds after a call: which entries stay, which come back, and which repeat. */
module StoredFolders {
  import opened SettingsStore
  import opened BrowserFolders
  import Decimal

  // ---------- Repeats in the stored list ----------

  ghost predicate Distinct(s: seq<string>) {
    forall i, j :: 0 <= i < j < |s| ==> s[i] != s[j]
  }

  /** A surviving, existing entry at position i, which is stored as the path p. */
  ghost predicate StoredAs(fs: FileSystem, folder: string, s: seq<string>, i: nat, p: string)
    requires i < |s|
  {
    Survives(fs, folder, s, i) && Kept(fs, s[i]) && fs(s[i]).path == p
  }

  ghost predicate StoredBelow(fs: FileSystem, folder: string, s: seq<string>, n: nat, p: string)
    requires n <= |s|
  {
    exists i :: 0 <= i < n && StoredAs(fs, folder, s, i, p)
  }

  /** Position j is not stored as the same path as an earlier one. */
  ghost predicate FreshPath(fs: FileSystem, folder: string, s: seq<string>, j: nat)
    requires j < |s|
  {
    StoredAs(fs, folder, s, j, fs(s[j]).path) ==> !StoredBelow(fs, folder, s, j, fs(s[j]).path)
  }

  /** No two positions below n are stored as the same path. */
  ghost predicate NoSharedPath(fs: FileSystem, folder: string, s: seq<string>, n: nat)
    requires n <= |s|
  {
    forall j :: 0 <= j < n ==> FreshPath(fs, folder, s, j)
  }

  lemma StoredBelowIff(fs: FileSystem, folder: string, s: seq<string>, n: nat, p: string)
    requires n <= |s|
    ensures p in PathsOf(fs, Surviving(fs, folder, s, n)) <==> StoredBelow(fs, folder, s, n, p)
  {
    var left := Surviving(fs, folder, s, n);
    PathsOfMember(fs, left, p);
    if y :| y in left && Kept(fs, y) && fs(y).path == p {
      SurvivingMember(fs, folder, s, n, y);
      var i :| 0 <= i < n && Survives(fs, folder, s, i) && s[i] == y;
      assert StoredAs(fs, folder, s, i, p);
    }
    if i :| 0 <= i < n && StoredAs(fs, folder, s, i, p) {
      SurvivingMember(fs, folder, s, n, s[i]);
    }
  }

  lemma DistinctAfter(s: seq<string>, x: string)
    ensures Distinct(s + [x]) <==> Distinct(s) && x !in s
  {
    var a := s + [x];
    assert forall i | 0 <= i < |s| :: a[i] == s[i];
    if Distinct(a) {
      forall i | 0 <= i < |s| ensures s[i] != x {
        assert a[i] != a[|s|];
      }
    }
  }

  lemma DistinctBefore(s: seq<string>, x: string)
    ensures Distinct([x] + s) <==> Distinct(s) && x !in s
  {
    var b := [x] + s;
    assert b[1..] == s;
    if Distinct(b) {
      forall i, j | 0 <= i < j < |s| ensures s[i] != s[j] && s[j] != x && s[i] != x {
        assert b[i + 1] != b[j + 1] && b[0] != b[j + 1] && b[0] != b[i + 1];
      }
      forall i | 0 <= i < |s| ensures s[i] != x {
        assert b[0] != b[i + 1];
      }
    }
  }

  lemma SurvivingPathsStep(fs: FileSystem, folder: string, s: seq<string>, n: nat)
    requires 0 < n <= |s|
    ensures var p := fs(s[n - 1]).path;
            PathsOf(fs, Surviving(fs, folder, s, n))
            == PathsOf(fs, Surviving(fs, folder, s, n - 1)) + if StoredAs(fs, folder, s, n - 1, p) then [p] else []
  {
    var before, left := Surviving(fs, folder, s, n - 1), Surviving(fs, folder, s, n);
    if Survives(fs, folder, s, n - 1) {
      assert left == before + [s[n - 1]] && left[..|left| - 1] == before && left[|left| - 1] == s[n - 1];
    } else {
      assert left == before && PathsOf(fs, left) + [] == PathsOf(fs, left);
    }
  }

  lemma NoSharedStep(fs: FileSystem, folder: string, s: seq<string>, n: nat)
    requires 0 < n <= |s|
    ensures NoSharedPath(fs, folder, s, n) <==> NoSharedPath(fs, folder, s, n - 1) && FreshPath(fs, folder, s, n - 1)
  {
  }

  lemma FreshPathIff(fs: FileSystem, folder: string, s: seq<string>, j: nat, p: string)
    requires j < |s| && p == fs(s[j]).path
    ensures FreshPath(fs, folder, s, j)
            <==> (StoredAs(fs, folder, s, j, p) ==> p !in PathsOf(fs, Surviving(fs, folder, s, j)))
  {
    StoredBelowIff(fs, folder, s, j, p);
  }

  lemma DistinctMaybeAfter(after: seq<string>, before: seq<string>, p: string, added: bool)
    requires after == before + if added then [p] else []
    ensures Distinct(after) <==> Distinct(before) && (added ==> p !in before)
  {
    if added {
      DistinctAfter(before, p);
    } else {
      assert after == before;
    }
  }

  lemma SurvivingDistinctStep(fs: FileSystem, folder: string, s: seq<string>, n: nat, p: string)
    requires 0 < n <= |s| && p == fs(s[n - 1]).path
    ensures Distinct(PathsOf(fs, Surviving(fs, folder, s, n)))
            <==> Distinct(PathsOf(fs, Surviving(fs, folder, s, n - 1)))
                 && (StoredAs(fs, folder, s, n - 1, p) ==> p !in PathsOf(fs, Surviving(fs, folder, s, n - 1)))
  {
    SurvivingPathsStep(fs, folder, s, n);
    DistinctMaybeAfter(PathsOf(fs, Surviving(fs, folder, s, n)), PathsOf(fs, Surviving(fs, folder, s, n - 1)), p,
                       StoredAs(fs, folder, s, n - 1, p));
  }

  lemma {:induction false} SurvivingDistinctIff(fs: FileSystem, folder: string, s: seq<string>, n: nat)
    requires n <= |s|
    ensures Distinct(PathsOf(fs, Surviving(fs, folder, s, n))) <==> NoSharedPath(fs, folder, s, n)
  {
    if n > 0 {
      SurvivingDistinctIff(fs, folder, s, n - 1);
      SurvivingDistinctStep(fs, folder, s, n, fs(s[n - 1]).path);
      FreshPathIff(fs, folder, s, n - 1, fs(s[n - 1]).path);
      NoSharedStep(fs, folder, s, n);
    }
  }

  /** A deletion stores a list without repeats if and only if no two surviving positions share a path. */
  lemma DeleteStoresDistinctIff(fs: FileSystem, d: Store, name: string)
    ensures Distinct(Read(AfterDelete(fs, d, name))) <==> NoSharedPath(fs, FolderOf(fs, name), Read(d), |Read(d)|)
  {
    var folder, s := FolderOf(fs, name), Read(d);
    SkipRemovedSurvive(fs, folder, s);
    SurvivingDistinctIff(fs, folder, s, |s|);
    RoundTrip(d, PathsOf(fs, SkipRemoved(fs, folder, s)));
  }

  /** The last position below n that survives. */
  function LastSurvivor(fs: FileSystem, path: string, s: seq<string>, n: nat): (k: nat)
    requires n <= |s| && Surviving(fs, path, s, n) != []
    ensures k < n && Survives(fs, path, s, k)
    ensures forall i :: k < i < n ==> !Survives(fs, path, s, i)
    ensures Surviving(fs, path, s, n) == Surviving(fs, path, s, k) + [s[k]]
  {
    if Survives(fs, path, s, n - 1) then n - 1 else LastSurvivor(fs, path, s, n - 1)
  }

  /** Below this position an entry that survives also stays within the cap: of 100 or more survivors the last goes. */
  function CapPosition(fs: FileSystem, path: string, s: seq<string>): (n: nat)
    ensures n <= |s|
  {
    if |Surviving(fs, path, s, |s|)| < MAX_FOLDERS then |s| else LastSurvivor(fs, path, s, |s|)
  }

  lemma InsertedSurvive(fs: FileSystem, s: seq<string>, name: string)
    ensures var folder := FolderOf(fs, name);
            Inserted(fs, s, name) == [name] + Surviving(fs, folder, s, CapPosition(fs, folder, s))
  {
    SkipRemovedSurvive(fs, FolderOf(fs, name), s);
  }

  lemma PathsOfInserted(fs: FileSystem, s: seq<string>, name: string)
    requires fs(name).found
    ensures var folder := FolderOf(fs, name);
            PathsOf(fs, Inserted(fs, s, name))
            == [fs(name).path] + PathsOf(fs, Surviving(fs, folder, s, CapPosition(fs, folder, s)))
  {
    InsertedSurvive(fs, s, name);
    PathsOfHead(fs, Inserted(fs, s, name));
  }

  /**
   When a name is set and the list is written, it has no repeats if and only if no two surviving positions within
   the cap share a path, and none of them has the path of the name.
   */
  lemma SetStoresDistinctIff(fs: FileSystem, d: Store, name: string, n: nat)
    requires n == CapPosition(fs, FolderOf(fs, name), Read(d))
    ensures Distinct(Read(AfterSet(fs, d, name)))
            <==> if Front(Read(d)) == name || !fs(name).found then Distinct(Read(d))
                 else NoSharedPath(fs, FolderOf(fs, name), Read(d), n)
                      && !StoredBelow(fs, FolderOf(fs, name), Read(d), n, fs(name).path)
  {
    if Front(Read(d)) != name && fs(name).found {
      var folder, s := FolderOf(fs, name), Read(d);
      PathsOfInserted(fs, s, name);
      RoundTrip(d, PathsOf(fs, Inserted(fs, s, name)));
      DistinctBefore(PathsOf(fs, Surviving(fs, folder, s, n)), fs(name).path);
      SurvivingDistinctIff(fs, folder, s, n);
      StoredBelowIff(fs, folder, s, n, fs(name).path);
    }
  }

  /** Setting a folder on a list without repeats stores the root twice, when a directory below the root was listed. */
  lemma SetRepeatsExample(fs: FileSystem, d: Store)
    requires Read(d) == ["/e", "/"] && fs("/g/h") == FileInfo(true, false, "/g")
    requires fs("/e") == FileInfo(true, false, "/") && fs("/") == FileInfo(true, false, "/")
    ensures Read(AfterSet(fs, d, "/g/h")) == ["/g", "/", "/"]
  {
    var s := Read(d);
    assert |"/g/h"| == 4;
    assert s[1..] == ["/"] && s[1..][1..] == [];
    assert SkipRemoved(fs, "/g/h", s[1..]) == ["/"];
    assert SkipRemoved(fs, "/g/h", s) == s;
    PathsOfTriple(fs, "/g/h", "/e", "/");
    RoundTrip(d, ["/g", "/", "/"]);
  }

  lemma PathsOfTriple(fs: FileSystem, x: string, y: string, z: string)
    requires Kept(fs, x) && Kept(fs, y) && Kept(fs, z)
    ensures PathsOf(fs, [x] + [y, z]) == [fs(x).path, fs(y).path, fs(z).path]
  {
    var s := [x] + [y, z];
    assert s[..2][..1] == [x] && [x][..0] == [] && s[..2] == [x, y];
    assert PathsOf(fs, [x]) == [fs(x).path] && PathsOf(fs, s[..2]) == [fs(x).path, fs(y).path];
  }

  // ---------- Files and folders ----------

  /** Both names stand for the same folder: a file stands for its path, anything else for itself. */
  ghost predicate SameFolder(fs: FileSystem, a: string, b: string) {
    (if fs(a).isFile then fs(a).path else a) == (if fs(b).isFile then fs(b).path else b)
  }

  /** All entries from k to i - 1 stand for the folder of the name, and the one before k does not. */
  ghost predicate RunFrom(fs: FileSystem, name: string, s: seq<string>, k: nat, i: nat)
    requires i <= |s|
  {
    && k <= i
    && (forall j :: k <= j < i ==> SameFolder(fs, name, s[j]))
    && (k > 0 ==> !SameFolder(fs, name, s[k - 1]))
  }

  /** Entry i stands for another folder than the name, or an odd run of entries of its folder ends directly before. */
  ghost predicate Stays(fs: FileSystem, name: string, s: seq<string>, i: nat)
    requires i < |s|
  {
    !SameFolder(fs, name, s[i]) || exists k: nat :: RunFrom(fs, name, s, k, i) && (i - k) % 2 == 1
  }

  /** Entry i stays, exists, and has the path p. */
  ghost predicate StaysAs(fs: FileSystem, name: string, s: seq<string>, i: nat, p: string)
    requires i < |s|
  {
    Stays(fs, name, s, i) && (fs(s[i]).found || fs(s[i]).isFile) && fs(s[i]).path == p
  }

  lemma {:induction false} RunBeforeIs(fs: FileSystem, name: string, s: seq<string>, i: nat, k: nat)
    requires i <= |s| && RunFrom(fs, name, s, k, i)
    ensures RunBefore(fs, FolderOf(fs, name), s, i) == i - k
    decreases i
  {
    if k < i {
      assert SameFolder(fs, name, s[i - 1]);
      RunBeforeIs(fs, name, s, i - 1, k);
    }
  }

  lemma {:induction false} RunExists(fs: FileSystem, name: string, s: seq<string>, i: nat) returns (k: nat)
    requires i <= |s|
    ensures RunFrom(fs, name, s, k, i)
    decreases i
  {
    k := i;
    if i > 0 && SameFolder(fs, name, s[i - 1]) {
      k := RunExists(fs, name, s, i - 1);
    }
  }

  lemma StaysIff(fs: FileSystem, name: string, s: seq<string>, i: nat)
    requires i < |s|
    ensures Survives(fs, FolderOf(fs, name), s, i) <==> Stays(fs, name, s, i)
  {
    var k := RunExists(fs, name, s, i);
    RunBeforeIs(fs, name, s, i, k);
    if j: nat :| RunFrom(fs, name, s, j, i) && (i - j) % 2 == 1 {
      RunBeforeIs(fs, name, s, i, j);
    }
  }

  lemma StaysBelowIff(fs: FileSystem, name: string, s: seq<string>, n: nat, p: string)
    requires n <= |s|
    ensures StoredBelow(fs, FolderOf(fs, name), s, n, p) <==> exists i :: 0 <= i < n && StaysAs(fs, name, s, i, p)
  {
    forall i | 0 <= i < n ensures StoredAs(fs, FolderOf(fs, name), s, i, p) <==> StaysAs(fs, name, s, i, p) {
      StaysIff(fs, name, s, i);
    }
  }

  /** What a deletion stores: the paths of the existing entries that stay. */
  lemma DeletedExactly(fs: FileSystem, d: Store, name: string, p: string)
    ensures p in Read(AfterDelete(fs, d, name)) <==> exists i :: 0 <= i < |Read(d)| && StaysAs(fs, name, Read(d), i, p)
  {
    var folder, s := FolderOf(fs, name), Read(d);
    SkipRemovedSurvive(fs, folder, s);
    RoundTrip(d, PathsOf(fs, SkipRemoved(fs, folder, s)));
    StoredBelowIff(fs, folder, s, |s|, p);
    StaysBelowIff(fs, name, s, |s|, p);
  }

  /**
   What setting a name stores: nothing new if the name is the most recent folder or does not exist; otherwise its path
   and those of the existing entries that stay, up to the position that the cap leaves.
   */
  lemma SetExactly(fs: FileSystem, d: Store, name: string, p: string, n: nat)
    requires n == CapPosition(fs, FolderOf(fs, name), Read(d))
    ensures (Read(d) != [] && Read(d)[0] == name) || (Read(d) == [] && name == "") || !fs(name).found
            ==> AfterSet(fs, d, name) == d
    ensures !((Read(d) != [] && Read(d)[0] == name) || (Read(d) == [] && name == "")) && fs(name).found
            ==> (p in Read(AfterSet(fs, d, name))
                 <==> p == fs(name).path || exists i :: 0 <= i < n && StaysAs(fs, name, Read(d), i, p))
  {
    var folder, s := FolderOf(fs, name), Read(d);
    if Front(s) != name && fs(name).found {
      PathsOfInserted(fs, s, name);
      RoundTrip(d, PathsOf(fs, Inserted(fs, s, name)));
      StoredBelowIff(fs, folder, s, n, p);
      StaysBelowIff(fs, name, s, n, p);
    }
  }

  /** With fewer than 100 survivors setting a folder drops none of them; otherwise it drops the last one only. */
  lemma CapDropsLast(fs: FileSystem, s: seq<string>, name: string, left: seq<string>)
    requires left == SkipRemoved(fs, FolderOf(fs, name), s)
    ensures Inserted(fs, s, name) == [name] + if |left| < 100 then left else left[..|left| - 1]
  {
    assert |left| >= 100 ==> ([name] + left)[..|left|] == [name] + left[..|left| - 1];
  }

  lemma CapPositionIff(fs: FileSystem, path: string, s: seq<string>)
    ensures CapPosition(fs, path, s) == |s| <==> |SkipRemoved(fs, path, s)| < 100
  {
    SkipRemovedSurvive(fs, path, s);
  }

  ghost predicate NoNeighbours(fs: FileSystem, name: string, s: seq<string>) {
    forall i :: 0 < i < |s| ==> !SameFolder(fs, name, s[i - 1]) || !SameFolder(fs, name, s[i])
  }

  lemma StaysWithoutNeighbours(fs: FileSystem, name: string, s: seq<string>, i: nat)
    requires i < |s| && NoNeighbours(fs, name, s)
    ensures Stays(fs, name, s, i) <==> !SameFolder(fs, name, s[i])
  {
    if i > 0 && SameFolder(fs, name, s[i]) {
      assert !SameFolder(fs, name, s[i - 1]);
    }
  }

  lemma StaysAsMember(fs: FileSystem, name: string, s: seq<string>, p: string)
    requires NoNeighbours(fs, name, s)
    ensures (exists i :: 0 <= i < |s| && StaysAs(fs, name, s, i, p))
            <==> exists x :: x in s && !SameFolder(fs, name, x) && (fs(x).found || fs(x).isFile) && fs(x).path == p
  {
    if i :| 0 <= i < |s| && StaysAs(fs, name, s, i, p) {
      StaysWithoutNeighbours(fs, name, s, i);
      assert s[i] in s;
    }
    if x :| x in s && !SameFolder(fs, name, x) && (fs(x).found || fs(x).isFile) && fs(x).path == p {
      var i :| 0 <= i < |s| && s[i] == x;
      StaysWithoutNeighbours(fs, name, s, i);
      assert StaysAs(fs, name, s, i, p);
    }
  }

  /** When no two neighbours stand for the folder of a file, deleting the file removes exactly those that do. */
  lemma DeletedFileExactly(fs: FileSystem, d: Store, name: string, p: string)
    requires fs(name).isFile && NoNeighbours(fs, name, Read(d))
    ensures p in Read(AfterDelete(fs, d, name))
            <==> exists x :: x in Read(d) && (if fs(x).isFile then fs(x).path != fs(name).path else x != fs(name).path)
                             && (fs(x).found || fs(x).isFile) && fs(x).path == p
  {
    DeletedExactly(fs, d, name, p);
    StaysAsMember(fs, name, Read(d), p);
  }

  /** Setting a file on a list with its folder takes the folder out, and deleting the file does, too. */
  lemma FileExample(fs: FileSystem, d: Store, file: string, folder: string, other: string)
    requires file == "/disks/a.atr" && folder == "/disks" && other == "/games" && Read(d) == [other, folder]
    requires fs(file) == FileInfo(true, true, "/disks")
    requires fs(folder) == FileInfo(true, false, "/") && fs(other) == FileInfo(true, false, "/")
    ensures Read(AfterSet(fs, d, file)) == ["/disks", "/"] && Read(AfterDelete(fs, d, file)) == ["/"]
  {
    var s := Read(d);
    assert |file| == 12 && |folder| == 6 && |other| == 6 && folder[1] != other[1];
    assert s[1..] == [folder] && s[1..][1..] == [];
    assert SkipRemoved(fs, "/disks", s[1..]) == [];
    assert SkipRemoved(fs, "/disks", s) == [other];
    PathsOfPair(fs, file, other);
    RoundTrip(d, ["/disks", "/"]);
    RoundTrip(d, ["/"]);
  }

  lemma PathsOfPair(fs: FileSystem, x: string, y: string)
    requires Kept(fs, x) && Kept(fs, y)
    ensures PathsOf(fs, [x] + [y]) == [fs(x).path, fs(y).path] && PathsOf(fs, [y]) == [fs(y).path]
  {
    var s := [x] + [y];
    assert s[..1] == [x] && s[..1][..0] == [] && [y][..0] == [];
    assert PathsOf(fs, [x]) == [fs(x).path];
  }

  /** The keys of a stored list: its entries counted from 1, and its length. */
  lemma LayoutExample(d: Store, x: string, y: string)
    requires d == map[]
    ensures Written(d, [x, y]) == map[["RecentBrowserFolders", "1", "FileFolder"] := Text(x),
                                      ["RecentBrowserFolders", "2", "FileFolder"] := Text(y),
                                      ["RecentBrowserFolders", "size"] := Number(2)]
  {
    assert [x, y][..1] == [x] && [x][..0] == [];
    assert Decimal.OfInt(1) == "1" && Decimal.OfInt(2) == "2";
    assert Entries(d - {LENGTH}, [x]) == (d - {LENGTH})[FolderKey(0) := Text(x)];
  }
}
