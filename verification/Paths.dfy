/** Splitting a path into its parent directory and the rest, with the separators of the platform. */
module Paths {

  /** The native separator: '/', or '\' on the one platform that has it. */
  datatype Platform = Unix | Windows

  function Replaced(s: string, from: char, to: char): (r: string)
    ensures |r| == |s| && forall i :: 0 <= i < |s| ==> r[i] == if s[i] == from then to else s[i]
  {
    seq(|s|, i requires 0 <= i < |s| => if s[i] == from then to else s[i])
  }

  function FromNative(o: Platform, s: string): string {
    if o.Windows? then Replaced(s, '\\', '/') else s
  }

  function ToNative(o: Platform, s: string): string {
    if o.Windows? then Replaced(s, '/', '\\') else s
  }

  /** The index of the last slash, or -1. */
  function LastSlash(s: string): (i: int)
    ensures -1 <= i < |s|
    ensures i >= 0 ==> s[i] == '/'
    ensures forall j :: i < j < |s| ==> s[j] != '/'
  {
    if s == "" then -1
    else if s[|s| - 1] == '/' then |s| - 1
    else LastSlash(s[..|s| - 1])
  }

  method GetParentDir(o: Platform, fileFolder: string) returns (r: string)
    ensures r == ParentDir(o, fileFolder)
  {
    var linuxName := FromNative(o, fileFolder);
    var wasNonNative := linuxName != fileFolder;
    var lastSlash := LastSlash(linuxName);
    if lastSlash >= 0 {
      linuxName := linuxName[..lastSlash];
    }
    if wasNonNative {
      return ToNative(o, linuxName);
    }
    return linuxName;
  }

  function ParentDir(o: Platform, p: string): string {
    var linux := FromNative(o, p);
    var k := LastSlash(linux);
    var cut := if k >= 0 then linux[..k] else linux;
    if linux != p then ToNative(o, cut) else cut
  }

  /** The last n characters; all of them when n is negative or too large. */
  function Right(s: string, n: int): string {
    if n < 0 || n >= |s| then s else s[|s| - n..]
  }

  function RemovePrefix(prefix: string, name: string): string {
    if prefix <= name then Right(name, |name| - |prefix| - 1) else name
  }

  predicate Separator(o: Platform, c: char) {
    c == '/' || (o.Windows? && c == '\\')
  }

  /** Where the last separator of a path is, on either platform. */
  ghost predicate LastSeparator(o: Platform, p: string, k: int) {
    0 <= k < |p| && Separator(o, p[k]) && forall j :: k < j < |p| ==> !Separator(o, p[j])
  }

  function Separators(o: Platform, s: string): nat {
    if s == "" then 0 else Separators(o, s[..|s| - 1]) + if Separator(o, s[|s| - 1]) then 1 else 0
  }

  // ---------- Splitting and rejoining ----------

  /** Removing a proper prefix also removes one more character, whatever it is; the whole name is kept as it is. */
  lemma RemovePrefixCuts(prefix: string, name: string)
    ensures prefix < name ==> prefix + [name[|prefix|]] + RemovePrefix(prefix, name) == name
    ensures prefix == name || !(prefix <= name) ==> RemovePrefix(prefix, name) == name
  {
  }

  /** With '/' as the only separator, parent, slash and rest make up the path again, and the rest has no slash. */
  lemma SplitAndRejoin(p: string)
    requires '/' in p
    ensures var parent := ParentDir(Unix, p);
            var rest := RemovePrefix(parent, p);
            parent + "/" + rest == p && '/' !in rest
  {
    var k := LastSlash(p);
    RemovePrefixCuts(ParentDir(Unix, p), p);
    assert p[..k] + "/" + p[k + 1..] == p;
  }

  // ---------- What the parent is ----------

  /**
   The parent is what stands before the last separator; on Windows all its separators become backslashes if the
   path has any backslash at all. A path without a separator is its own parent.
  */
  lemma ParentMeaning(o: Platform, p: string, k: int)
    requires LastSeparator(o, p, k) || (k == -1 && forall j | 0 <= j < |p| :: !Separator(o, p[j]))
    ensures var parent := ParentDir(o, p);
            && |parent| == (if k >= 0 then k else |p|)
            && forall i | 0 <= i < |parent| ::
                 parent[i] == if o.Windows? && '\\' in p && p[i] == '/' then '\\' else p[i]
  {
    var linux := FromNative(o, p);
    var l := LastSlash(linux);
    assert forall i | 0 <= i < |p| :: linux[i] == '/' <==> Separator(o, p[i]);
    assert k >= 0 ==> linux[k] == '/';
    assert l == k;
    if '\\' !in p {
      assert linux == p;
    } else {
      var b :| 0 <= b < |p| && p[b] == '\\';
      assert o.Windows? ==> linux[b] != p[b];
    }
  }

  // ---------- Going up ----------

  /** Texts with separators in the same places have equally many. */
  lemma {:induction false} SameSeparators(o: Platform, a: string, b: string)
    requires |a| == |b| && forall i :: 0 <= i < |a| ==> (Separator(o, a[i]) <==> Separator(o, b[i]))
    ensures Separators(o, a) == Separators(o, b)
  {
    if a != "" {
      SameSeparators(o, a[..|a| - 1], b[..|b| - 1]);
    }
  }

  /** A text without separators after k has as many as its first k characters. */
  lemma {:induction false} SeparatorsUpTo(o: Platform, s: string, k: nat)
    requires k <= |s| && forall i :: k <= i < |s| ==> !Separator(o, s[i])
    ensures Separators(o, s) == Separators(o, s[..k])
    decreases |s|
  {
    if k < |s| {
      SeparatorsUpTo(o, s[..|s| - 1], k);
      assert s[..|s| - 1][..k] == s[..k];
    } else {
      assert s[..k] == s;
    }
  }

  lemma {:induction false} FindLastSeparator(o: Platform, p: string) returns (k: int)
    ensures LastSeparator(o, p, k) || (k == -1 && forall j | 0 <= j < |p| :: !Separator(o, p[j]))
    ensures k == -1 <==> Separators(o, p) == 0
  {
    if p == "" {
      k := -1;
    } else if Separator(o, p[|p| - 1]) {
      k := |p| - 1;
    } else {
      k := FindLastSeparator(o, p[..|p| - 1]);
    }
  }

  /** The parent of a path has one separator less; without a separator it is the path itself. */
  lemma ParentHasOneLess(o: Platform, p: string)
    ensures Separators(o, ParentDir(o, p)) == if Separators(o, p) == 0 then 0 else Separators(o, p) - 1
    ensures ParentDir(o, p) == p <==> Separators(o, p) == 0
  {
    var k := FindLastSeparator(o, p);
    var parent := ParentDir(o, p);
    ParentMeaning(o, p, k);
    if k == -1 {
      assert forall i | 0 <= i < |p| :: p[i] != '/';
      assert parent == p;
    } else {
      SeparatorsUpTo(o, p, k + 1);
      assert p[..k + 1][..k] == p[..k];
      SameSeparators(o, parent, p[..k]);
    }
  }

  function Ancestor(o: Platform, p: string, n: nat): string {
    if n == 0 then p else ParentDir(o, Ancestor(o, p, n - 1))
  }

  /** Going up n times removes n separators, while there are any. */
  lemma {:induction false} AncestorSeparators(o: Platform, p: string, n: nat)
    ensures Separators(o, Ancestor(o, p, n)) == if n <= Separators(o, p) then Separators(o, p) - n else 0
  {
    if n > 0 {
      AncestorSeparators(o, p, n - 1);
      ParentHasOneLess(o, Ancestor(o, p, n - 1));
    }
  }

  /** Iterating the parent reaches a fixed point without separators in as many steps as the path has separators. */
  lemma FixedPointAfterSeparators(o: Platform, p: string, n: nat)
    ensures ParentDir(o, Ancestor(o, p, n)) == Ancestor(o, p, n) <==> n >= Separators(o, p)
    ensures (forall c | c in Ancestor(o, p, n) :: !Separator(o, c)) <==> n >= Separators(o, p)
  {
    AncestorSeparators(o, p, n);
    ParentHasOneLess(o, Ancestor(o, p, n));
    var k := FindLastSeparator(o, Ancestor(o, p, n));
  }

  // ---------- Splitting with two separators ----------

  /**
   On Windows the rest is the last component exactly when the parent is still a prefix of the path: when the
   path has no backslash at all, or no slash before its last separator.
   */
  lemma SplitOnWindowsIff(p: string, k: int)
    requires LastSeparator(Windows, p, k)
    ensures RemovePrefix(ParentDir(Windows, p), p) == p[k + 1..] <==> '\\' !in p || '/' !in p[..k]
  {
    var parent := ParentDir(Windows, p);
    ParentMeaning(Windows, p, k);
    if '\\' !in p || '/' !in p[..k] {
      assert forall i | 0 <= i < k :: p[..k][i] == p[i];
      assert parent == p[..k];
    } else {
      var s :| 0 <= s < k && p[..k][s] == '/';
      assert parent[s] != p[s];
      assert !(parent <= p);
    }
    RemovePrefixCuts(parent, p);
  }

  /** A path that mixes both keeps its whole name as the rest. */
  lemma MixedSeparatorsExample()
    ensures ParentDir(Windows, "a/b\\c") == "a\\b" && RemovePrefix("a\\b", "a/b\\c") == "a/b\\c"
  {
    var linux := FromNative(Windows, "a/b\\c");
    assert linux == "a/b/c";
    assert LastSlash("a/b/c") == 3;
    assert "a/b/c"[..3] == "a/b";
    assert ToNative(Windows, "a/b") == "a\\b";
    assert "a\\b"[1] != "a/b\\c"[1];
  }
}
