/** The list of recently browsed folders: how it is stored as an array, and how adding and deleting change it. */
module BrowserFolders {
  import opened SettingsStore
  import Decimal

  const FOLDERS := "RecentBrowserFolders"
  const LENGTH: Path := [FOLDERS, "size"]
  const MAX_FOLDERS := 100

  /** What the file system says about a name (`QFileInfo`). */
  datatype FileInfo = FileInfo(found: bool, isFile: bool, path: string)
  type FileSystem = string -> FileInfo

  // ---------- The list as an array of settings ----------

  function FolderKey(i: nat): Path {
    [FOLDERS, Decimal.OfInt(i + 1), "FileFolder"]
  }

  function Read(d: Store): seq<string> {
    var size := Lookup(d, LENGTH).ToInt();
    seq(if size < 0 then 0 else size, i requires i >= 0 => Lookup(d, FolderKey(i)).ToText())
  }

  function Entries(d: Store, paths: seq<string>): Store {
    if paths == [] then d
    else Entries(d, paths[..|paths| - 1])[FolderKey(|paths| - 1) := Text(paths[|paths| - 1])]
  }

  function Written(d: Store, paths: seq<string>): Store {
    Entries(d - {LENGTH}, paths)[LENGTH := Number(|paths|)]
  }

  lemma EntriesStep(d: Store, paths: seq<string>, path: string)
    ensures Entries(d, paths + [path]) == Entries(d, paths)[FolderKey(|paths|) := Text(path)]
  {
    assert (paths + [path])[..|paths|] == paths;
  }

  lemma FolderKeyInjective(i: nat, j: nat)
    requires FolderKey(i) == FolderKey(j)
    ensures i == j
  {
    assert FolderKey(i)[1] == FolderKey(j)[1];
    Decimal.Injective(i + 1, j + 1);
  }

  lemma {:induction false} EntriesAt(d: Store, paths: seq<string>, key: Path)
    ensures var r := Entries(d, paths);
            && (forall i | 0 <= i < |paths| && key == FolderKey(i) :: key in r && r[key] == Text(paths[i]))
            && ((forall i | 0 <= i < |paths| :: key != FolderKey(i)) ==>
                  (key in r <==> key in d) && Lookup(r, key) == Lookup(d, key))
  {
    if paths != [] {
      var n := |paths| - 1;
      EntriesAt(d, paths[..n], key);
      forall i | 0 <= i < n && key == FolderKey(i) ensures key != FolderKey(n) {
        if key == FolderKey(n) {
          FolderKeyInjective(i, n);
        }
      }
    }
  }

  /** Writing a list changes its entries and its length only; entries of a longer old list stay in the store. */
  lemma WrittenFrame(d: Store, paths: seq<string>, key: Path)
    requires key != LENGTH && forall i | 0 <= i < |paths| :: key != FolderKey(i)
    ensures (key in Written(d, paths) <==> key in d) && Lookup(Written(d, paths), key) == Lookup(d, key)
  {
    EntriesAt(d - {LENGTH}, paths, key);
  }

  /** A list that has been written is read back as it was, whatever list the store held before. */
  lemma RoundTrip(d: Store, paths: seq<string>)
    ensures Read(Written(d, paths)) == paths
  {
    var r := Written(d, paths);
    forall i | 0 <= i < |paths| ensures Lookup(r, FolderKey(i)).ToText() == paths[i] {
      EntriesAt(d - {LENGTH}, paths, FolderKey(i));
      assert |LENGTH| != |FolderKey(i)|;
    }
  }

  // ---------- The removal loop ----------

  function FolderOf(fs: FileSystem, name: string): string {
    if fs(name).isFile then fs(name).path else name
  }

  predicate Matches(fs: FileSystem, path: string, text: string) {
    FolderOf(fs, text) == path
  }

  /** What the removal loop leaves: after each removal the next entry moves up and is not looked at. */
  function SkipRemoved(fs: FileSystem, path: string, s: seq<string>): (r: seq<string>)
    ensures |r| <= |s|
  {
    if s == [] then []
    else if !Matches(fs, path, s[0]) then [s[0]] + SkipRemoved(fs, path, s[1..])
    else if |s| == 1 then []
    else [s[1]] + SkipRemoved(fs, path, s[2..])
  }

  /** What it was meant to leave. */
  function NotMatching(fs: FileSystem, path: string, s: seq<string>): seq<string> {
    if s == [] then []
    else (if Matches(fs, path, s[0]) then [] else [s[0]]) + NotMatching(fs, path, s[1..])
  }

  ghost predicate AdjacentMatch(fs: FileSystem, path: string, s: seq<string>) {
    exists i :: 0 <= i < |s| - 1 && Matches(fs, path, s[i]) && Matches(fs, path, s[i + 1])
  }

  /** Entries of other folders all stay, in their order. */
  lemma {:induction false} OthersStay(fs: FileSystem, path: string, s: seq<string>)
    ensures NotMatching(fs, path, SkipRemoved(fs, path, s)) == NotMatching(fs, path, s)
    decreases |s|
  {
    if s == [] || (Matches(fs, path, s[0]) && |s| == 1) {
    } else if !Matches(fs, path, s[0]) {
      OthersStay(fs, path, s[1..]);
      assert ([s[0]] + SkipRemoved(fs, path, s[1..]))[1..] == SkipRemoved(fs, path, s[1..]);
    } else {
      OthersStay(fs, path, s[2..]);
      assert ([s[1]] + SkipRemoved(fs, path, s[2..]))[1..] == SkipRemoved(fs, path, s[2..]);
      assert s[1..][1..] == s[2..];
    }
  }

  /** The second, fourth, ... element. */
  function EverySecond(s: seq<string>): (r: seq<string>)
    ensures |r| == |s| / 2
    ensures forall i :: 0 <= i < |r| ==> r[i] == s[2 * i + 1]
  {
    if |s| < 2 then [] else [s[1]] + EverySecond(s[2..])
  }

  lemma SkipOther(fs: FileSystem, path: string, x: string, rest: seq<string>)
    requires !Matches(fs, path, x)
    ensures SkipRemoved(fs, path, [x] + rest) == [x] + SkipRemoved(fs, path, rest)
  {
    assert ([x] + rest)[1..] == rest;
  }

  lemma SkipPair(fs: FileSystem, path: string, x: string, y: string, rest: seq<string>)
    requires Matches(fs, path, x)
    ensures SkipRemoved(fs, path, [x, y] + rest) == [y] + SkipRemoved(fs, path, rest)
  {
    assert ([x, y] + rest)[2..] == rest;
  }

  lemma Associative<T>(x: seq<T>, y: seq<T>, z: seq<T>)
    ensures x + y + z == x + (y + z)
  {
  }

  lemma {:induction false} SplitAfterOther(fs: FileSystem, path: string, a: seq<string>, b: seq<string>)
    requires a == [] || !Matches(fs, path, a[|a| - 1])
    ensures SkipRemoved(fs, path, a + b) == SkipRemoved(fs, path, a) + SkipRemoved(fs, path, b)
    decreases |a|
  {
    if a == [] {
      assert a + b == b;
    } else {
      var n := if Matches(fs, path, a[0]) then 2 else 1;
      var head, rest := a[..n], a[n..];
      SplitAfterOther(fs, path, rest, b);
      assert a == head + rest;
      Associative(head, rest, b);
      Associative([a[n - 1]], SkipRemoved(fs, path, rest), SkipRemoved(fs, path, b));
      if n == 1 {
        assert head == [a[0]];
        SkipOther(fs, path, a[0], rest);
        SkipOther(fs, path, a[0], rest + b);
      } else {
        assert head == [a[0], a[1]];
        SkipPair(fs, path, a[0], a[1], rest);
        SkipPair(fs, path, a[0], a[1], rest + b);
      }
    }
  }

  ghost predicate AllMatch(fs: FileSystem, path: string, s: seq<string>) {
    forall i :: 0 <= i < |s| ==> Matches(fs, path, s[i])
  }

  lemma LastOfRun(fs: FileSystem, path: string, x: string, b: seq<string>)
    requires Matches(fs, path, x)
    requires b == [] || !Matches(fs, path, b[0])
    ensures SkipRemoved(fs, path, [x] + b) == SkipRemoved(fs, path, b)
  {
    if b == [] {
      assert [x] + b == [x];
    } else {
      assert b == [b[0]] + b[1..] && [x] + b == [x, b[0]] + b[1..];
      SkipPair(fs, path, x, b[0], b[1..]);
      SkipOther(fs, path, b[0], b[1..]);
    }
  }

  lemma {:induction false} RunThenOther(fs: FileSystem, path: string, run: seq<string>, b: seq<string>)
    requires AllMatch(fs, path, run)
    requires b == [] || !Matches(fs, path, b[0])
    ensures SkipRemoved(fs, path, run + b) == EverySecond(run) + SkipRemoved(fs, path, b)
    decreases |run|
  {
    if run == [] {
      assert run + b == b;
    } else if |run| == 1 {
      LastOfRun(fs, path, run[0], b);
      assert run == [run[0]];
      assert [] + SkipRemoved(fs, path, b) == SkipRemoved(fs, path, b);
    } else {
      var head, rest := [run[0], run[1]], run[2..];
      RunThenOther(fs, path, rest, b);
      assert run == head + rest;
      Associative(head, rest, b);
      SkipPair(fs, path, run[0], run[1], rest + b);
      Associative([run[1]], EverySecond(rest), SkipRemoved(fs, path, b));
    }
  }

  /** Of a maximal run of m matching entries every second one stays, m/2 in all, whatever surrounds the run. */
  lemma RunLeavesHalf(fs: FileSystem, path: string, a: seq<string>, run: seq<string>, b: seq<string>)
    requires AllMatch(fs, path, run)
    requires (a == [] || !Matches(fs, path, a[|a| - 1])) && (b == [] || !Matches(fs, path, b[0]))
    ensures SkipRemoved(fs, path, a + (run + b))
            == SkipRemoved(fs, path, a) + (EverySecond(run) + SkipRemoved(fs, path, b))
  {
    SplitAfterOther(fs, path, a, run + b);
    RunThenOther(fs, path, run, b);
  }

  lemma SameTail<T>(x: T, a: seq<T>, b: seq<T>)
    ensures [x] + a == [x] + b <==> a == b
  {
    assert ([x] + a)[1..] == a && ([x] + b)[1..] == b;
  }

  /** The loop and the filter at a head that stays, and at a match followed by an entry that stays. */
  lemma SameStep(fs: FileSystem, path: string, s: seq<string>, n: nat)
    requires if s == [] || Matches(fs, path, s[0]) then n == 2 <= |s| && !Matches(fs, path, s[1]) else n == 1
    ensures SkipRemoved(fs, path, s) == NotMatching(fs, path, s)
            <==> SkipRemoved(fs, path, s[n..]) == NotMatching(fs, path, s[n..])
  {
    assert n == 2 ==> s[1..][1..] == s[2..];
    SameTail(s[n - 1], SkipRemoved(fs, path, s[n..]), NotMatching(fs, path, s[n..]));
  }

  /** The loop removes every matching entry if and only if no two neighbours match. */
  lemma {:induction false} RemovesAllIff(fs: FileSystem, path: string, s: seq<string>)
    ensures SkipRemoved(fs, path, s) == NotMatching(fs, path, s) <==> !AdjacentMatch(fs, path, s)
    decreases |s|
  {
    if s == [] || (Matches(fs, path, s[0]) && |s| == 1) {
    } else if Matches(fs, path, s[0]) && Matches(fs, path, s[1]) {
      assert AdjacentMatch(fs, path, s);
      NotMatchingOnly(fs, path, s);
      assert SkipRemoved(fs, path, s)[0] == s[1];
    } else {
      var n := if Matches(fs, path, s[0]) then 2 else 1;
      SameStep(fs, path, s, n);
      RemovesAllIff(fs, path, s[n..]);
      AdjacentTail(fs, path, s);
      if n == 2 {
        AdjacentTail(fs, path, s[1..]);
        assert s[1..][1..] == s[2..];
      }
    }
  }

  lemma AdjacentTail(fs: FileSystem, path: string, s: seq<string>)
    requires s != []
    ensures AdjacentMatch(fs, path, s)
            <==> AdjacentMatch(fs, path, s[1..]) || (|s| > 1 && Matches(fs, path, s[0]) && Matches(fs, path, s[1]))
  {
    if AdjacentMatch(fs, path, s) {
      var i :| 0 <= i < |s| - 1 && Matches(fs, path, s[i]) && Matches(fs, path, s[i + 1]);
      if i > 0 {
        assert s[1..][i - 1] == s[i] && s[1..][i - 1 + 1] == s[i + 1];
      }
    }
    if AdjacentMatch(fs, path, s[1..]) {
      var i :| 0 <= i < |s[1..]| - 1 && Matches(fs, path, s[1..][i]) && Matches(fs, path, s[1..][i + 1]);
      assert s[1..][i] == s[i + 1] && s[1..][i + 1] == s[i + 1 + 1];
    }
  }

  lemma {:induction false} NotMatchingOnly(fs: FileSystem, path: string, s: seq<string>)
    ensures forall x | x in NotMatching(fs, path, s) :: x in s && !Matches(fs, path, x)
  {
    if s != [] {
      NotMatchingOnly(fs, path, s[1..]);
    }
  }

  /** Of two neighbouring entries of the same folder the loop leaves one. */
  lemma RemovalSkipsExample(fs: FileSystem, s: seq<string>)
    requires s == ["/disks", "/disks"] && !fs("/disks").isFile
    ensures SkipRemoved(fs, "/disks", s) == ["/disks"] && NotMatching(fs, "/disks", s) == []
  {
    assert s[1..] == ["/disks"] && s[1..][1..] == [] && s[2..] == [];
    assert NotMatching(fs, "/disks", s[1..]) == [];
  }

  // ---------- The survivors of the loop, position by position ----------

  /** The number of matching entries directly before position i. */
  function RunBefore(fs: FileSystem, path: string, s: seq<string>, i: nat): nat
    requires i <= |s|
  {
    if i == 0 || !Matches(fs, path, s[i - 1]) then 0 else 1 + RunBefore(fs, path, s, i - 1)
  }

  /** Position i holds an entry of another folder, or a match with an odd number of matches directly before it. */
  predicate Survives(fs: FileSystem, path: string, s: seq<string>, i: nat)
    requires i < |s|
  {
    !Matches(fs, path, s[i]) || RunBefore(fs, path, s, i) % 2 == 1
  }

  /** The entries below position n that survive, in their order. */
  function Surviving(fs: FileSystem, path: string, s: seq<string>, n: nat): (r: seq<string>)
    requires n <= |s|
    ensures |r| <= n
  {
    if n == 0 then []
    else Surviving(fs, path, s, n - 1) + if Survives(fs, path, s, n - 1) then [s[n - 1]] else []
  }

  lemma SkipAt(fs: FileSystem, path: string, s: seq<string>, n: nat, k: nat)
    requires n < n + k <= |s| && k == if Matches(fs, path, s[n]) then 2 else 1
    ensures SkipRemoved(fs, path, s[n..]) == [s[n + k - 1]] + SkipRemoved(fs, path, s[n + k..])
  {
    assert s[n..][k..] == s[n + k..] && s[n..][0] == s[n];
  }

  lemma SurvivingAt(fs: FileSystem, path: string, s: seq<string>, n: nat, k: nat)
    requires n < n + k <= |s| && k == if Matches(fs, path, s[n]) then 2 else 1
    requires RunBefore(fs, path, s, n) % 2 == 0
    ensures Surviving(fs, path, s, n + k) == Surviving(fs, path, s, n) + [s[n + k - 1]]
    ensures RunBefore(fs, path, s, n + k) % 2 == 0
  {
    if k == 2 {
      assert RunBefore(fs, path, s, n + 1) == 1 + RunBefore(fs, path, s, n);
      assert !Survives(fs, path, s, n) && Survives(fs, path, s, n + 1);
      assert Surviving(fs, path, s, n + 1) == Surviving(fs, path, s, n);
    }
  }

  lemma SurvivingEnd(fs: FileSystem, path: string, s: seq<string>, n: nat)
    requires n == |s| || (n == |s| - 1 && Matches(fs, path, s[n]))
    requires RunBefore(fs, path, s, n) % 2 == 0
    ensures Surviving(fs, path, s, |s|) == Surviving(fs, path, s, n) && SkipRemoved(fs, path, s[n..]) == []
  {
    if n < |s| {
      assert s[n..] == [s[n]] && !Survives(fs, path, s, n);
    }
  }

  /** The survivors below n, followed by what the loop leaves of the rest. */
  function SplitAt(fs: FileSystem, path: string, s: seq<string>, n: nat): seq<string>
    requires n <= |s|
  {
    Surviving(fs, path, s, n) + SkipRemoved(fs, path, s[n..])
  }

  lemma SplitNext(fs: FileSystem, path: string, s: seq<string>, n: nat, k: nat)
    requires n < n + k <= |s| && k == if Matches(fs, path, s[n]) then 2 else 1
    requires RunBefore(fs, path, s, n) % 2 == 0
    ensures SplitAt(fs, path, s, n) == SplitAt(fs, path, s, n + k) && RunBefore(fs, path, s, n + k) % 2 == 0
  {
    SurvivingAt(fs, path, s, n, k);
    SkipAt(fs, path, s, n, k);
    Associative(Surviving(fs, path, s, n), [s[n + k - 1]], SkipRemoved(fs, path, s[n + k..]));
  }

  lemma {:induction false} SplitAnywhere(fs: FileSystem, path: string, s: seq<string>, n: nat)
    requires n <= |s| && RunBefore(fs, path, s, n) % 2 == 0
    ensures SplitAt(fs, path, s, n) == SplitAt(fs, path, s, |s|)
    decreases |s| - n
  {
    var k := if n < |s| && Matches(fs, path, s[n]) then 2 else 1;
    if n + k > |s| {
      SurvivingEnd(fs, path, s, n);
    } else {
      SplitNext(fs, path, s, n, k);
      SplitAnywhere(fs, path, s, n + k);
    }
  }

  /** The loop leaves exactly the entries that survive by position, in their order. */
  lemma SkipRemovedSurvive(fs: FileSystem, path: string, s: seq<string>)
    ensures SkipRemoved(fs, path, s) == Surviving(fs, path, s, |s|)
  {
    SplitAnywhere(fs, path, s, 0);
    assert s[0..] == s && s[|s|..] == [];
    assert [] + SkipRemoved(fs, path, s) == SkipRemoved(fs, path, s);
    assert Surviving(fs, path, s, |s|) + [] == Surviving(fs, path, s, |s|);
  }

  lemma SurvivingStep(fs: FileSystem, path: string, s: seq<string>, n: nat, y: string)
    requires n < |s|
    ensures y in Surviving(fs, path, s, n + 1)
            <==> y in Surviving(fs, path, s, n) || (Survives(fs, path, s, n) && s[n] == y)
  {
  }

  lemma {:induction false} SurvivingMember(fs: FileSystem, path: string, s: seq<string>, n: nat, y: string)
    requires n <= |s|
    ensures y in Surviving(fs, path, s, n) <==> exists i :: 0 <= i < n && Survives(fs, path, s, i) && s[i] == y
  {
    if n > 0 {
      SurvivingMember(fs, path, s, n - 1, y);
      SurvivingStep(fs, path, s, n - 1, y);
    }
  }

  // ---------- Adding and deleting ----------

  predicate Kept(fs: FileSystem, folder: string) {
    fs(folder).found || fs(folder).isFile
  }

  /** What is stored for a list of folders: the path of each that exists. */
  function PathsOf(fs: FileSystem, folders: seq<string>): (r: seq<string>)
    ensures |r| <= |folders|
  {
    if folders == [] then []
    else
      var last := folders[|folders| - 1];
      PathsOf(fs, folders[..|folders| - 1]) + if Kept(fs, last) then [fs(last).path] else []
  }

  lemma PathsOfStep(fs: FileSystem, folders: seq<string>, n: nat)
    requires n < |folders|
    ensures PathsOf(fs, folders[..n + 1])
            == PathsOf(fs, folders[..n]) + if Kept(fs, folders[n]) then [fs(folders[n]).path] else []
  {
    assert folders[..n + 1][..n] == folders[..n];
  }

  function Front(folders: seq<string>): string {
    if folders == [] then "" else folders[0]
  }

  function Inserted(fs: FileSystem, folders: seq<string>, name: string): (r: seq<string>)
    ensures |folders| <= MAX_FOLDERS ==> |r| <= MAX_FOLDERS
  {
    var r := [name] + SkipRemoved(fs, FolderOf(fs, name), folders);
    if |r| > MAX_FOLDERS then r[..|r| - 1] else r
  }

  function AfterSet(fs: FileSystem, d: Store, name: string): Store {
    if Front(Read(d)) == name || !fs(name).found then d
    else Written(d, PathsOf(fs, Inserted(fs, Read(d), name)))
  }

  function AfterDelete(fs: FileSystem, d: Store, name: string): Store {
    Written(d, PathsOf(fs, SkipRemoved(fs, FolderOf(fs, name), Read(d))))
  }

  /** A call that changes the list, with the state of the file system at that moment. */
  datatype Call = SetMostRecent(fs: FileSystem, name: string) | DelMostRecent(fs: FileSystem, name: string)

  ghost function Run(d: Store, calls: seq<Call>): Store {
    if calls == [] then d
    else
      var mid := Run(d, calls[..|calls| - 1]);
      match calls[|calls| - 1]
      case SetMostRecent(fs, name) => AfterSet(fs, mid, name)
      case DelMostRecent(fs, name) => AfterDelete(fs, mid, name)
  }

  /** The stored list never grows beyond 100 entries, however the file system changes between the calls. */
  lemma {:induction false} RunKeepsCap(d: Store, calls: seq<Call>)
    requires |Read(d)| <= 100
    ensures |Read(Run(d, calls))| <= 100
  {
    if calls != [] {
      var mid := Run(d, calls[..|calls| - 1]);
      RunKeepsCap(d, calls[..|calls| - 1]);
      match calls[|calls| - 1] {
        case SetMostRecent(fs, name) => RoundTrip(mid, PathsOf(fs, Inserted(fs, Read(mid), name)));
        case DelMostRecent(fs, name) => RoundTrip(mid, PathsOf(fs, SkipRemoved(fs, FolderOf(fs, name), Read(mid))));
      }
    }
  }

  lemma {:induction false} PathsOfHead(fs: FileSystem, folders: seq<string>)
    requires folders != []
    ensures PathsOf(fs, folders)
            == (if Kept(fs, folders[0]) then [fs(folders[0]).path] else []) + PathsOf(fs, folders[1..])
  {
    if |folders| > 1 {
      PathsOfHead(fs, folders[..|folders| - 1]);
      assert folders[1..][..|folders| - 2] == folders[..|folders| - 1][1..];
    }
  }

  /** When the list is written at all, the path of the name comes to its front, not the name itself. */
  lemma FrontAfterSet(fs: FileSystem, d: Store, name: string)
    ensures Front(Read(AfterSet(fs, d, name)))
            == if Front(Read(d)) != name && fs(name).found then fs(name).path else Front(Read(d))
  {
    if Front(Read(d)) != name && fs(name).found {
      var folders := Inserted(fs, Read(d), name);
      PathsOfHead(fs, folders);
      RoundTrip(d, PathsOf(fs, folders));
    }
  }

  /** Setting the most recent folder makes it the most recent one exactly if it already was, or its path is itself. */
  lemma SetIsFrontIff(fs: FileSystem, d: Store, name: string)
    ensures Front(Read(AfterSet(fs, d, name))) == name
            <==> Front(Read(d)) == name || (fs(name).found && fs(name).path == name)
  {
    FrontAfterSet(fs, d, name);
  }

  /** Browsing a directory makes its parent the most recent folder. */
  lemma SetFrontExample(fs: FileSystem, d: Store)
    requires d == map[] && fs("/disks/games") == FileInfo(true, false, "/disks")
    ensures Front(Read(AfterSet(fs, d, "/disks/games"))) == "/disks"
  {
    FrontAfterSet(fs, d, "/disks/games");
  }

  /** Storing a list leaves it as it is if and only if every entry exists and is its own path. */
  lemma {:induction false} StoredUnchangedIff(fs: FileSystem, folders: seq<string>)
    ensures PathsOf(fs, folders) == folders
            <==> forall x | x in folders :: Kept(fs, x) && fs(x).path == x
  {
    if folders != [] {
      var init, last := folders[..|folders| - 1], folders[|folders| - 1];
      StoredUnchangedIff(fs, init);
      assert folders == init + [last];
      if PathsOf(fs, folders) == folders {
        assert PathsOf(fs, folders)[..|folders| - 1] == init;
        assert PathsOf(fs, folders)[|folders| - 1] == last;
      }
    }
  }

  // ---------- What a deletion leaves stored ----------

  lemma {:induction false} PathsOfMember(fs: FileSystem, folders: seq<string>, p: string)
    ensures p in PathsOf(fs, folders) <==> exists y :: y in folders && Kept(fs, y) && fs(y).path == p
  {
    if folders != [] {
      var init, last := folders[..|folders| - 1], folders[|folders| - 1];
      PathsOfMember(fs, init, p);
      assert folders == init + [last];
      if p in PathsOf(fs, folders) && p !in PathsOf(fs, init) {
        assert last in folders && Kept(fs, last) && fs(last).path == p;
      }
      if y :| y in folders && Kept(fs, y) && fs(y).path == p {
        assert y in init || y == last;
      }
    }
  }

  /** An entry that exists and whose path, which is what gets stored, belongs to the folder. */
  predicate Returns(fs: FileSystem, folder: string, y: string) {
    Kept(fs, y) && Matches(fs, folder, fs(y).path)
  }

  /**
   After a deletion an entry of the deleted folder is stored exactly if the list held, at a position that survives,
   an existing entry whose path belongs to the folder: a match that was skipped, or a folder inside the deleted one.
   */
  lemma StillStoredIff(fs: FileSystem, d: Store, name: string)
    ensures var folder, s := FolderOf(fs, name), Read(d);
            (exists x :: x in Read(AfterDelete(fs, d, name)) && Matches(fs, folder, x))
            <==> exists i :: 0 <= i < |s| && Survives(fs, folder, s, i) && Returns(fs, folder, s[i])
  {
    var folder, s := FolderOf(fs, name), Read(d);
    var left := SkipRemoved(fs, folder, s);
    RoundTrip(d, PathsOf(fs, left));
    SkipRemovedSurvive(fs, folder, s);
    if x :| x in PathsOf(fs, left) && Matches(fs, folder, x) {
      PathsOfMember(fs, left, x);
      var y :| y in left && Kept(fs, y) && fs(y).path == x;
      SurvivingMember(fs, folder, s, |s|, y);
    }
    if i :| 0 <= i < |s| && Survives(fs, folder, s, i) && Returns(fs, folder, s[i]) {
      SurvivingMember(fs, folder, s, |s|, s[i]);
      PathsOfMember(fs, left, fs(s[i]).path);
    }
  }

  lemma OddRunAdjacent(fs: FileSystem, path: string, s: seq<string>, i: nat)
    requires i < |s| && !AdjacentMatch(fs, path, s)
    ensures Survives(fs, path, s, i) <==> !Matches(fs, path, s[i])
  {
    if i > 0 && Matches(fs, path, s[i]) {
      assert Matches(fs, path, s[i - 1 + 1]);
      assert !Matches(fs, path, s[i - 1]);
    }
  }

  /** When no two neighbours match, only entries of folders directly inside the deleted one bring it back. */
  lemma StillStoredFromInsideIff(fs: FileSystem, d: Store, name: string)
    requires !AdjacentMatch(fs, FolderOf(fs, name), Read(d))
    ensures var folder := FolderOf(fs, name);
            (exists x :: x in Read(AfterDelete(fs, d, name)) && Matches(fs, folder, x))
            <==> exists y :: y in Read(d) && !Matches(fs, folder, y) && Returns(fs, folder, y)
  {
    var folder, s := FolderOf(fs, name), Read(d);
    StillStoredIff(fs, d, name);
    forall i | 0 <= i < |s| ensures Survives(fs, folder, s, i) <==> !Matches(fs, folder, s[i]) {
      OddRunAdjacent(fs, folder, s, i);
    }
  }

  /** Deleting a folder from a list that only holds a directory inside it stores the deleted folder. */
  lemma DeleteStoresExample(fs: FileSystem, d: Store)
    requires Read(d) == ["/disks/games"]
    requires fs("/disks/games") == FileInfo(true, false, "/disks") && fs("/disks") == FileInfo(true, false, "/")
    ensures Read(AfterDelete(fs, d, "/disks")) == ["/disks"]
  {
    var s := Read(d);
    assert "/disks/games"[6] == '/' && |"/disks"| == 6;
    assert s[1..] == [] && s[..0] == [];
    assert SkipRemoved(fs, "/disks", s) == s;
    assert PathsOf(fs, s) == ["/disks"];
    RoundTrip(d, PathsOf(fs, s));
  }

  /** Deleting the folder of two equal neighbours leaves the path of that folder, if the folder exists. */
  lemma DeleteSkipsExample(fs: FileSystem, d: Store)
    requires Read(d) == ["/disks", "/disks"] && !fs("/disks").isFile
    ensures Read(AfterDelete(fs, d, "/disks")) == if fs("/disks").found then [fs("/disks").path] else []
  {
    var left := ["/disks"];
    RemovalSkipsExample(fs, Read(d));
    assert left[..0] == [];
    RoundTrip(d, PathsOf(fs, left));
  }
}
