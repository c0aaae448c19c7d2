/** Recursive deletion of a directory whose listing does not show hidden entries. */
module FileTree {
  import opened Listings

  type Path = seq<string>

  datatype Node = File | Dir

  type Tree = map<Path, Node>

  /** Listings hide the names that start with a dot. */
  predicate Hidden(name: string) {
    name != "" && name[0] == '.'
  }

  /** There is a root, and every other entry lies in a directory that exists. */
  ghost predicate WellFormed(t: Tree) {
    IsDir(t, []) && forall p | p in t && p != [] :: p[..|p| - 1] in t && t[p[..|p| - 1]].Dir?
  }

  predicate IsDir(t: Tree, p: Path) {
    p in t && t[p].Dir?
  }

  /** The names that listing a directory shows: its entries that are not hidden. */
  function Shown(t: Tree, n: Path): set<string> {
    set p | p in t && p != [] && p[..|p| - 1] == n && !Hidden(p[|p| - 1]) :: p[|p| - 1]
  }

  // ---------- What deletion should leave ----------

  /** Some name on the way from n down to q is hidden. */
  ghost predicate HiddenBelow(n: Path, q: Path) {
    n <= q && exists i :: |n| <= i < |q| && Hidden(q[i])
  }

  /** An entry is spared if it is the root, lies outside n, or is or contains something hidden below n. */
  ghost predicate Spared(t: Tree, n: Path, p: Path) {
    p == [] || !(n <= p) || exists q :: q in t && p <= q && HiddenBelow(n, q)
  }

  ghost function Pruned(t: Tree, n: Path): Tree {
    map p | p in t && Spared(t, n, p) :: t[p]
  }

  /** What is left when only some children of n have been deleted. */
  ghost function PrunedChildren(t: Tree, n: Path, names: seq<string>): Tree {
    map p | p in t && (forall x | x in names :: Spared(t, n + [x], p)) :: t[p]
  }

  // ---------- Ancestors ----------

  lemma {:induction false} Ancestor(t: Tree, p: Path, q: Path)
    requires WellFormed(t) && q in t && p <= q
    ensures p in t && (p != q ==> t[p].Dir?)
    decreases |q|
  {
    if p != q {
      assert p == q[..|p|];
      assert q[..|q| - 1][..|p|] == q[..|p|];
      Ancestor(t, p, q[..|q| - 1]);
    }
  }

  /** Only directories contain anything. */
  lemma FileHasNothingBelow(t: Tree, n: Path, q: Path)
    requires WellFormed(t) && n in t && t[n].File? && q in t && n <= q
    ensures q == n
  {
    Ancestor(t, n, q);
  }

  lemma HiddenBelowChild(n: Path, x: string, q: Path)
    requires n + [x] <= q
    ensures HiddenBelow(n, q) <==> Hidden(x) || HiddenBelow(n + [x], q)
  {
    assert q[|n|] == x && n <= q;
    if HiddenBelow(n, q) && !Hidden(x) {
      var i :| |n| <= i < |q| && Hidden(q[i]);
      assert i != |n|;
    }
  }

  lemma SparedAtChild(t: Tree, n: Path, x: string, p: Path)
    requires n + [x] <= p && !Hidden(x)
    ensures Spared(t, n + [x], p) <==> Spared(t, n, p)
  {
    assert n <= p;
    forall q | q in t && p <= q ensures HiddenBelow(n + [x], q) <==> HiddenBelow(n, q) {
      assert n + [x] <= q;
      HiddenBelowChild(n, x, q);
    }
  }

  // ---------- The steps of the deletion loop ----------

  lemma PrunedWellFormed(t: Tree, n: Path)
    requires WellFormed(t)
    ensures WellFormed(Pruned(t, n))
  {
    var r := Pruned(t, n);
    forall p | p in r && p != [] ensures p[..|p| - 1] in r && r[p[..|p| - 1]].Dir? {
      var d := p[..|p| - 1];
      assert d in t && t[d].Dir?;
      if d != [] && n <= d {
        assert n <= p;
        var q :| q in t && p <= q && HiddenBelow(n, q);
        assert d <= q;
      }
    }
  }

  lemma PrunedChildrenStep(t: Tree, n: Path, names: seq<string>, i: nat)
    requires i < |names| && forall j, k | 0 <= j < k < |names| :: names[j] != names[k]
    ensures Pruned(PrunedChildren(t, n, names[..i]), n + [names[i]]) == PrunedChildren(t, n, names[..i + 1])
  {
    var x, mid := names[i], PrunedChildren(t, n, names[..i]);
    assert names[..i + 1] == names[..i] + [x];
    assert x !in names[..i];
    forall p | p in mid ensures Spared(mid, n + [x], p) <==> Spared(t, n + [x], p) {
      if n + [x] <= p {
        forall q | q in t && p <= q ensures q in mid {
          OtherChildSpared(t, n, x, names[..i], q);
        }
      }
    }
  }

  lemma OtherChildSpared(t: Tree, n: Path, x: string, names: seq<string>, q: Path)
    requires n + [x] <= q && x !in names
    ensures forall y | y in names :: Spared(t, n + [y], q)
  {
    forall y | y in names ensures !(n + [y] <= q) {
      assert q[|n|] == x;
    }
  }

  lemma NotBelowChildren(t: Tree, n: Path, names: seq<string>, p: Path)
    requires !(n <= p) || p == n
    ensures forall y | y in names :: Spared(t, n + [y], p)
  {
    forall y | y in names ensures !(n + [y] <= p) {
      assert n + [y] <= p ==> n <= p && p != n;
    }
  }

  lemma FirstStep(t: Tree, n: Path, p: Path)
    requires WellFormed(t) && p in t && n < p
    ensures n + [p[|n|]] <= p && (p[|n|] in Shown(t, n) <==> !Hidden(p[|n|]))
  {
    var x, c := p[|n|], p[..|n| + 1];
    assert c == n + [x] && c[..|c| - 1] == n && c[|c| - 1] == x;
    Ancestor(t, c, p);
  }

  lemma SparedBelowChildren(t: Tree, n: Path, names: seq<string>, p: Path)
    requires WellFormed(t) && p in t && n < p && forall x :: x in names <==> x in Shown(t, n)
    ensures (forall y | y in names :: Spared(t, n + [y], p)) <==> Spared(t, n, p)
  {
    var x := p[|n|];
    FirstStep(t, n, p);
    if Hidden(x) {
      HiddenBelowChild(n, x, p);
      assert p <= p;
      HiddenNotListed(t, n, x, names, p);
    } else {
      SparedAtChild(t, n, x, p);
      forall y | y in names && y != x ensures Spared(t, n + [y], p) {
        OtherChildSpared(t, n, x, [y], p);
      }
    }
  }

  /** After all shown children are gone, everything below n that is spared is left, and n itself. */
  lemma PrunedChildrenEnd(t: Tree, n: Path, names: seq<string>, p: Path)
    requires WellFormed(t) && p in t && forall x :: x in names <==> x in Shown(t, n)
    ensures p in PrunedChildren(t, n, names) <==> p == n || Spared(t, n, p)
  {
    if n < p {
      SparedBelowChildren(t, n, names, p);
    } else {
      NotBelowChildren(t, n, names, p);
    }
  }

  lemma HiddenNotListed(t: Tree, n: Path, x: string, names: seq<string>, p: Path)
    requires n + [x] <= p && Hidden(x) && forall y | y in names :: y in Shown(t, n)
    ensures forall y | y in names :: Spared(t, n + [y], p)
  {
    assert x !in names;
    OtherChildSpared(t, n, x, names, p);
  }

  /** n can be removed exactly when nothing below it was spared; then n is not spared either. */
  lemma EmptyAfterChildren(t: Tree, n: Path, names: seq<string>)
    requires WellFormed(t) && n in t && n != [] && forall x :: x in names <==> x in Shown(t, n)
    ensures (exists p :: p in PrunedChildren(t, n, names) && n < p) <==> Spared(t, n, n)
  {
    var r := PrunedChildren(t, n, names);
    if p :| p in r && n < p {
      PrunedChildrenEnd(t, n, names, p);
      var q :| q in t && p <= q && HiddenBelow(n, q);
      assert n <= q;
    }
    if Spared(t, n, n) {
      var q :| q in t && n <= q && HiddenBelow(n, q);
      assert n < q && q <= q;
      PrunedChildrenEnd(t, n, names, q);
      assert q in r;
    }
  }

  /** Deleting what is not a directory: the entry itself goes, if there is one, and nothing else. */
  lemma PrunedNonDir(t: Tree, n: Path)
    requires WellFormed(t) && !IsDir(t, n)
    ensures Pruned(t, n) == t - {n}
  {
    forall p | p in t && p != n ensures Spared(t, n, p) {
      if n <= p {
        Ancestor(t, n, p);
      }
    }
    if n in t && Spared(t, n, n) {
      var q :| q in t && n <= q && HiddenBelow(n, q);
      FileHasNothingBelow(t, n, q);
    }
  }

  lemma PrunedBelow(t: Tree, n: Path, names: seq<string>)
    requires WellFormed(t) && n in t && forall x :: x in names <==> x in Shown(t, n)
    ensures n in PrunedChildren(t, n, names)
    ensures Pruned(t, n) - {n} == PrunedChildren(t, n, names) - {n}
  {
    forall p | p in t ensures p in PrunedChildren(t, n, names) <==> p == n || Spared(t, n, p) {
      PrunedChildrenEnd(t, n, names, p);
    }
  }

  lemma SameButOne(a: Tree, b: Tree, n: Path)
    requires a - {n} == b - {n} && n in b
    ensures n in a && a[n] == b[n] ==> a == b
    ensures n !in a ==> a == b - {n}
  {
    assert forall p | p in a && p != n :: p in a - {n} && (a - {n})[p] == a[p];
    assert forall p | p in b && p != n :: p in b - {n} && (b - {n})[p] == b[p];
  }

  /** Deleting a directory: its shown children go, and it goes too if that leaves it empty. */
  lemma PrunedDir(t: Tree, n: Path, names: seq<string>)
    requires WellFormed(t) && n in t && forall x :: x in names <==> x in Shown(t, n)
    ensures var r := PrunedChildren(t, n, names);
            Pruned(t, n) == if n != [] && !(exists p :: p in r && n < p) then r - {n} else r
  {
    var r := PrunedChildren(t, n, names);
    PrunedBelow(t, n, names);
    if n != [] {
      EmptyAfterChildren(t, n, names);
    }
    SameButOne(Pruned(t, n), r, n);
  }

  // ---------- The volume ----------

  class Volume {
    var tree: Tree

    constructor (t: Tree)
      requires WellFormed(t)
      ensures tree == t
    {
      tree := t;
    }

    /** Removes a file; anything else stays. */
    method Remove(n: Path)
      modifies this
      ensures tree == if IsDir(old(tree), n) then old(tree) else old(tree) - {n}
    {
      if !IsDir(tree, n) {
        tree := tree - {n};
      }
    }

    /** Removes an empty directory other than the root; anything else stays. */
    method RmDir(n: Path)
      modifies this
      ensures tree == if IsDir(old(tree), n) && n != [] && !(exists p :: p in old(tree) && n < p)
                      then old(tree) - {n} else old(tree)
    {
      if IsDir(tree, n) && n != [] && !(exists p | p in tree :: n < p) {
        tree := tree - {n};
      }
    }

    /** The entries of a directory that are not hidden, in some order. */
    method EntryList(n: Path) returns (names: seq<string>)
      ensures ListsExactly(names, Shown(tree, n))
    {
      names := Listing(Shown(tree, n));
    }

    /** Deletes n and all below it, except what is spared. */
    method Deltree(n: Path)
      requires WellFormed(tree)
      modifies this
      ensures tree == Pruned(old(tree), n)
      ensures WellFormed(tree)
      decreases set p | p in tree && n <= p
    {
      ghost var t := tree;
      PrunedWellFormed(t, n);
      if IsDir(tree, n) {
        var list := EntryList(n);
        for i := 0 to |list|
          invariant tree == PrunedChildren(t, n, list[..i]) && WellFormed(tree)
        {
          PrunedChildrenStep(t, n, list, i);
          ChildSmaller(t, tree, n, list[i]);
          Deltree(n + [list[i]]);
        }
        assert list[..|list|] == list;
        PrunedDir(t, n, list);
        PrunedChildrenEnd(t, n, list, n);
        RmDir(n);
      } else {
        PrunedNonDir(t, n);
        Remove(n);
      }
    }
  }

  lemma ChildSmaller(t: Tree, t': Tree, n: Path, x: string)
    requires n in t && t'.Keys <= t.Keys
    ensures (set p | p in t' && n + [x] <= p) < (set p | p in t && n <= p)
  {
    var below, child := set p | p in t && n <= p, set p | p in t' && n + [x] <= p;
    forall p | p in child ensures p in below {
      assert p in t.Keys && n <= n + [x] <= p;
    }
    assert n in below && n !in child;
  }

  // ---------- What follows ----------

  /** Nothing outside n is touched. */
  lemma OutsideUntouched(t: Tree, n: Path, p: Path)
    requires !(n <= p)
    ensures p in Pruned(t, n) <==> p in t
    ensures p in t ==> Pruned(t, n)[p] == t[p]
  {
  }

  /** The survivors at or below n: the hidden, what lies inside the hidden, and directories that hold a hidden entry. */
  lemma SurvivorsBelow(t: Tree, n: Path, p: Path)
    requires WellFormed(t) && n != [] && n <= p && p in t
    ensures p in Pruned(t, n) <==>
            HiddenBelow(n, p) || (t[p].Dir? && exists q :: q in t && p < q && HiddenBelow(p, q))
  {
    if p in Pruned(t, n) && !HiddenBelow(n, p) {
      var q :| q in t && p <= q && HiddenBelow(n, q);
      var i :| |n| <= i < |q| && Hidden(q[i]);
      assert q[..|p|] == p;
      assert i >= |p|;
      Ancestor(t, p, q);
    }
    if HiddenBelow(n, p) {
      assert p <= p;
    }
    if q :| q in t && p < q && HiddenBelow(p, q) {
      assert n <= q && HiddenBelow(n, q);
    }
  }

  /** A directory goes with everything in it if and only if nothing below it is hidden. */
  lemma GoneIff(t: Tree, n: Path)
    requires WellFormed(t) && n != []
    ensures (forall p | n <= p :: p !in Pruned(t, n)) <==> (forall q | q in t :: !HiddenBelow(n, q))
  {
    if q :| q in t && HiddenBelow(n, q) {
      assert n <= q <= q;
      assert q in Pruned(t, n);
    }
  }

  /** Deleting again changes nothing: what was spared once is spared again. */
  lemma DeletingTwice(t: Tree, n: Path)
    ensures Pruned(Pruned(t, n), n) == Pruned(t, n)
  {
    var r := Pruned(t, n);
    forall p | p in r ensures Spared(r, n, p) {
      if p != [] && n <= p {
        var q :| q in t && p <= q && HiddenBelow(n, q);
        assert q <= q && q in r;
      }
    }
  }

  /** Deleting two entries, neither of which contains the other, has the same effect in either order. */
  lemma DeletionsCommute(t: Tree, m: Path, n: Path)
    requires !(m <= n) && !(n <= m)
    ensures Pruned(Pruned(t, m), n) == Pruned(Pruned(t, n), m)
  {
    forall p | p in t ensures Spared(Pruned(t, m), n, p) <==> Spared(t, n, p) {
      SparedIndependent(t, m, n, p);
    }
    forall p | p in t ensures Spared(Pruned(t, n), m, p) <==> Spared(t, m, p) {
      SparedIndependent(t, n, m, p);
    }
  }

  lemma SparedIndependent(t: Tree, m: Path, n: Path, p: Path)
    requires !(m <= n) && !(n <= m)
    ensures Spared(Pruned(t, m), n, p) <==> Spared(t, n, p)
  {
    if n <= p {
      forall q | q in t && p <= q ensures q in Pruned(t, m) {
        assert n <= p <= q;
        Comparable(q, m, n);
      }
    }
  }

  /** Two paths to places from which the same entry can be reached lie on one line. */
  lemma Comparable(q: Path, m: Path, n: Path)
    ensures m <= q && n <= q ==> m <= n || n <= m
  {
    if m <= q && n <= q {
      assert if |m| <= |n| then m == q[..|m|] == n[..|m|] else n == q[..|n|] == m[..|n|];
    }
  }

  // ---------- Which names are hidden ----------

  /** The hidden names are those made of a dot and anything. */
  lemma HiddenIff(name: string)
    ensures Hidden(name) <==> exists rest: string :: name == "." + rest
  {
    if Hidden(name) {
      assert name == "." + name[1..];
    }
  }

  lemma NamesOfExample()
    ensures Hidden(".b") && !Hidden("a.") && !Hidden("d")
    ensures ["d"] <= ["d", ".b"] && ["d"] <= ["d", "a."] && !(["d", "a."] <= ["d", ".b"])
    ensures HiddenBelow(["d"], ["d", ".b"]) && !HiddenBelow(["d"], ["d", "a."]) && !HiddenBelow(["d"], ["d"])
  {
    assert Hidden(["d", ".b"][1]);
    assert ["d", "a."][1] != ["d", ".b"][1];
  }

  /** A directory with a file and a hidden file loses the file only. */
  lemma DeletionExample(t: Tree)
    requires t == map[[] := Dir, ["d"] := Dir, ["d", "a."] := File, ["d", ".b"] := File]
    ensures Pruned(t, ["d"]) == map[[] := Dir, ["d"] := Dir, ["d", ".b"] := File]
  {
    NamesOfExample();
    assert forall q | q in t && q != ["d", ".b"] :: !HiddenBelow(["d"], q);
  }

  /** Without the hidden file it goes as well. */
  lemma GoneExample(t: Tree)
    requires t == map[[] := Dir, ["d"] := Dir, ["d", "a."] := File]
    ensures Pruned(t, ["d"]) == map[[] := Dir]
  {
    NamesOfExample();
    assert forall q | q in t :: !HiddenBelow(["d"], q);
  }
}
