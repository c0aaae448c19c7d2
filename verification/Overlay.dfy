/**
 What copying one settings tree over another means, independently of how the copy walks the trees:
 everything below the cursor `p` of the source appears at the same relative place below the cursor `q`
 of the target, and nothing else changes.
 */
module Overlay {
  import opened Listings
  import opened SettingsStore

  /** All keys of the source below its cursor. */
  function KeysBelow(from: Store, p: Path): set<Path> {
    set k | k in from && Below(p, k)
  }

  ghost predicate Copyable(from: Store, p: Path, ks: set<Path>) {
    forall k | k in ks :: k in from && Below(p, k)
  }

  /** Where the keys ks, taken below p, land below q. */
  ghost function Moved(q: Path, p: Path, ks: set<Path>): (r: set<Path>)
    requires forall k | k in ks :: Below(p, k)
    ensures forall key :: key in r <==> q <= key && p + key[|q|..] in ks
  {
    assert forall k | k in ks && Below(p, k) :: p + (q + k[|p|..])[|q|..] == k;
    assert forall key | q <= key && p + key[|q|..] in ks :: q + (p + key[|q|..])[|p|..] == key;
    set k | k in ks :: q + k[|p|..]
  }

  /** The target after exactly the keys ks have been copied. */
  ghost function CopyKeys(to: Store, q: Path, from: Store, p: Path, ks: set<Path>): (r: Store)
    requires Copyable(from, p, ks)
  {
    map key | key in to.Keys + Moved(q, p, ks) ::
       if q <= key && p + key[|q|..] in ks then from[p + key[|q|..]] else to[key]
  }

  ghost function Overlaid(to: Store, q: Path, from: Store, p: Path): Store {
    CopyKeys(to, q, from, p, KeysBelow(from, p))
  }

  /** The copy read key by key: copied keys hold the source's value, all others are as before. */
  lemma CopyKeysAt(to: Store, q: Path, from: Store, p: Path, ks: set<Path>, key: Path)
    requires Copyable(from, p, ks)
    ensures var r := CopyKeys(to, q, from, p, ks);
            var hit := q <= key && p + key[|q|..] in ks;
            && (key in r <==> hit || key in to)
            && (key in r ==> r[key] == if hit then from[p + key[|q|..]] else to[key])
  {
  }

  /**
   The whole copy: every source key below p appears at the same relative place below q with the source's value,
   and every target key that is no such place is present and valued as before.
   */
  lemma OverlaidExactly(to: Store, q: Path, from: Store, p: Path)
    ensures var r := Overlaid(to, q, from, p);
            && (forall k | k in from && p < k :: q + k[|p|..] in r && r[q + k[|p|..]] == from[k])
            && (forall key | forall k | k in from && p < k :: key != q + k[|p|..] ::
                  (key in r <==> key in to) && (key in r ==> r[key] == to[key]))
  {
    var ks := KeysBelow(from, p);
    forall k | k in ks ensures var key := q + k[|p|..]; q <= key && p + key[|q|..] == k {
      assert p + (q + k[|p|..])[|q|..] == k;
    }
    assert forall k :: k in ks <==> k in from && p < k;
    forall key | forall k | k in ks :: key != q + k[|p|..] ensures !(q <= key && p + key[|q|..] in ks) {
      assert q <= key ==> q + (p + key[|q|..])[|p|..] == key;
    }
  }

  /** Copying nothing changes nothing. */
  lemma CopyNothing(to: Store, q: Path, from: Store, p: Path)
    ensures CopyKeys(to, q, from, p, {}) == to
  {
    forall key ensures key in CopyKeys(to, q, from, p, {}) <==> key in to {
      CopyKeysAt(to, q, from, p, {}, key);
    }
  }

  /** Writing one more source value extends the set of copied keys by its key. */
  lemma CopyOneMore(to: Store, q: Path, from: Store, p: Path, ks: set<Path>, name: string)
    requires Copyable(from, p, ks) && p + [name] in from
    ensures CopyKeys(to, q, from, p, ks)[q + [name] := from[p + [name]]]
            == CopyKeys(to, q, from, p, ks + {p + [name]})
  {
    var ks' := ks + {p + [name]};
    var before := CopyKeys(to, q, from, p, ks)[q + [name] := from[p + [name]]];
    var after := CopyKeys(to, q, from, p, ks');
    assert (q + [name])[|q|..] == [name];
    forall key ensures (key in before <==> key in after) && (key in after ==> before[key] == after[key]) {
      CopyKeysAt(to, q, from, p, ks, key);
      CopyKeysAt(to, q, from, p, ks', key);
      if q <= key && p + key[|q|..] == p + [name] {
        assert (p + key[|q|..])[|p|..] == key[|q|..] && (p + [name])[|p|..] == [name];
        assert key == q + key[|q|..];
      }
    }
  }

  /** Overlaying the group g on a partial copy adds all keys below that group. */
  lemma CopyGroup(to: Store, q: Path, from: Store, p: Path, ks: set<Path>, g: string)
    requires Copyable(from, p, ks)
    ensures Copyable(from, p, ks + KeysBelow(from, p + [g]))
    ensures Overlaid(CopyKeys(to, q, from, p, ks), q + [g], from, p + [g])
            == CopyKeys(to, q, from, p, ks + KeysBelow(from, p + [g]))
  {
    var sub := KeysBelow(from, p + [g]);
    var mid := CopyKeys(to, q, from, p, ks);
    var before := Overlaid(mid, q + [g], from, p + [g]);
    var after := CopyKeys(to, q, from, p, ks + sub);
    forall k | k in sub ensures Below(p, k) {
      assert p <= p + [g] <= k;
    }
    forall key ensures (key in before <==> key in after) && (key in after ==> before[key] == after[key]) {
      CopyKeysAt(to, q, from, p, ks, key);
      CopyKeysAt(mid, q + [g], from, p + [g], sub, key);
      CopyKeysAt(to, q, from, p, ks + sub, key);
      GroupHit(q, p, g, key, sub);
    }
  }

  lemma GroupHit(q: Path, p: Path, g: string, key: Path, sub: set<Path>)
    requires forall k | k in sub :: p + [g] <= k
    ensures (q + [g] <= key && p + [g] + key[|q| + 1..] in sub) <==> (q <= key && p + key[|q|..] in sub)
    ensures q + [g] <= key ==> p + [g] + key[|q| + 1..] == p + key[|q|..]
  {
    if q <= key && p + key[|q|..] in sub {
      assert (p + key[|q|..])[|p|] == g;
      assert q + [g] <= key;
    }
    if q + [g] <= key {
      assert key[|q|..] == [g] + key[|q| + 1..];
      assert p + [g] + key[|q| + 1..] == p + key[|q|..];
    }
  }

  /** At the roots the copy is plain map override. */
  lemma OverlaidAtRoot(to: Store, from: Store)
    requires [] !in from
    ensures Overlaid(to, [], from, []) == to + from
  {
    var r := Overlaid(to, [], from, []);
    forall key ensures (key in r <==> key in to + from) && (key in r ==> r[key] == (to + from)[key]) {
      CopyKeysAt(to, [], from, [], KeysBelow(from, []), key);
      assert [] + key[0..] == key;
    }
  }

  /** The length of the longest key, which bounds the depth of the tree below any cursor. */
  ghost function Depth(keys: set<Path>): (n: nat)
    ensures forall k | k in keys :: |k| <= n
  {
    if keys == {} then 0
    else
      var k :| k in keys;
      var n := Depth(keys - {k});
      if |k| > n then |k| else n
  }

  /** A child group is listed only because a longer key exists, so the copy never recurses past the deepest key. */
  lemma ChildGroupDeeper(from: Store, p: Path, name: string)
    requires name in ChildGroupNames(from, p)
    ensures |p| + 2 <= Depth(from.Keys)
  {
    var k :| k in from && Below(p, k) && |k| > |p| + 1 && k[|p|] == name;
    assert k in from.Keys;
  }

  /** The source keys covered by some of the child keys and some of the child groups of p. */
  ghost function Covered(from: Store, p: Path, keys: seq<string>, groups: seq<string>): (ks: set<Path>)
    ensures Copyable(from, p, ks)
  {
    set k | k in from && Below(p, k) && k[|p|] in if |k| == |p| + 1 then keys else groups
  }

  /** The target after those child keys and child groups have been copied. */
  ghost function Progress(to: Store, q: Path, from: Store, p: Path, keys: seq<string>, groups: seq<string>): Store {
    CopyKeys(to, q, from, p, Covered(from, p, keys, groups))
  }

  lemma ProgressStart(to: Store, q: Path, from: Store, p: Path)
    ensures Progress(to, q, from, p, [], []) == to
  {
    assert Covered(from, p, [], []) == {};
    CopyNothing(to, q, from, p);
  }

  lemma ProgressKey(to: Store, q: Path, from: Store, p: Path, keys: seq<string>, i: nat)
    requires i < |keys| && keys[i] in ChildKeyNames(from, p)
    ensures p + [keys[i]] in from
    ensures Progress(to, q, from, p, keys[..i], [])[q + [keys[i]] := from[p + [keys[i]]]]
            == Progress(to, q, from, p, keys[..i + 1], [])
  {
    var k :| k in from && Below(p, k) && |k| == |p| + 1 && k[|p|] == keys[i];
    assert k == p + [keys[i]];
    assert keys[..i + 1] == keys[..i] + [keys[i]];
    CopyOneMore(to, q, from, p, Covered(from, p, keys[..i], []), keys[i]);
    forall k' | k' in Covered(from, p, keys[..i + 1], []) ensures k' in Covered(from, p, keys[..i], []) + {k} {
      if k'[|p|] == keys[i] {
        assert k' == p + [keys[i]];
      }
    }
    assert Covered(from, p, keys[..i + 1], []) == Covered(from, p, keys[..i], []) + {k};
  }

  lemma ProgressGroup(to: Store, q: Path, from: Store, p: Path, keys: seq<string>, groups: seq<string>, i: nat)
    requires i < |groups|
    ensures Overlaid(Progress(to, q, from, p, keys, groups[..i]), q + [groups[i]], from, p + [groups[i]])
            == Progress(to, q, from, p, keys, groups[..i + 1])
  {
    var g := groups[i];
    assert groups[..i + 1] == groups[..i] + [g];
    CopyGroup(to, q, from, p, Covered(from, p, keys, groups[..i]), g);
    var sub := KeysBelow(from, p + [g]);
    forall k | k in sub ensures Below(p, k) && |k| > |p| + 1 && k[|p|] == g {
      assert p <= p + [g] <= k;
    }
    forall k | k in from && Below(p, k) && |k| > |p| + 1 && k[|p|] == g ensures k in sub {
      assert k[..|p| + 1] == p + [g];
    }
    assert Covered(from, p, keys, groups[..i + 1]) == Covered(from, p, keys, groups[..i]) + sub;
  }

  /** Child keys and child groups together, in whatever order they are listed, cover everything below p. */
  lemma ProgressEnd(to: Store, q: Path, from: Store, p: Path, keys: seq<string>, groups: seq<string>)
    requires ListsExactly(keys, ChildKeyNames(from, p)) && ListsExactly(groups, ChildGroupNames(from, p))
    ensures Progress(to, q, from, p, keys, groups) == Overlaid(to, q, from, p)
  {
    forall k | k in KeysBelow(from, p) ensures k in Covered(from, p, keys, groups) {
      if |k| == |p| + 1 {
        assert k[|p|] in ChildKeyNames(from, p);
      } else {
        assert k[|p|] in ChildGroupNames(from, p);
      }
    }
    assert Covered(from, p, keys, groups) == KeysBelow(from, p);
  }
}
