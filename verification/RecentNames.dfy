/**
 Which names the list of recent images, slots 0 to 9, still shows after a mount or an unmount, and when it
 shows one name twice.
 */
module RecentNames {
  import opened SettingsStore
  import opened Tables

  /** Some slot from lo to 9 holds the name. */
  ghost predicate ListedFrom(t: Table, name: string, lo: nat) {
    exists n :: lo <= n <= 9 && t[n].fileName == name
  }

  ghost predicate Listed(t: Table, name: string) {
    ListedFrom(t, name, 0)
  }

  /** Every name that t shows is still shown by r. */
  ghost predicate KeepsNames(t: Table, r: Table) {
    forall name | name != "" && Listed(t, name) :: Listed(r, name)
  }

  // ---------- Names that get lost ----------

  /** From this slot on a mount of a name first found in slot s clears the list 0..9, whose last slot it then fills. */
  function ClearedFrom(s: int): int {
    if s <= 9 then s else 9
  }

  /**
   Mounting a name found in one of the scanned slots once more keeps all recent names exactly when every other name
   in the slots from there on is also in a slot below. This holds of any table, however it came about.
   */
  lemma KnownNameKeepsAnyIff(t: Table, image: ImageSettings, c: int)
    requires image.fileName != "" && FirstSlot(t, image.fileName, 1) <= 10
    requires c == ClearedFrom(FirstSlot(t, image.fileName, 1))
    ensures KeepsNames(t, Remember(t, image))
            <==> forall n :: c <= n <= 9 && Occupied(t, n) && t[n].fileName != image.fileName
                   ==> exists m :: 0 <= m < c && t[m].fileName == t[n].fileName
  {
    FirstSlotIsLeast(t, image.fileName, 1);
    var r := Remember(t, image);
    assert forall m | 0 <= m < c :: r[m] == t[m];
    assert forall m | c <= m <= 9 :: r[m] == if m == 9 then image else NO_IMAGE;
    assert forall n | 0 <= n < c :: Listed(r, t[n].fileName);
    forall n | c <= n <= 9 && Occupied(t, n) && t[n].fileName != image.fileName
      ensures Listed(r, t[n].fileName) <==> exists m :: 0 <= m < c && t[m].fileName == t[n].fileName
    {
      if m :| 0 <= m < c && t[m].fileName == t[n].fileName {
        assert r[m].fileName == t[n].fileName;
      }
    }
    if KeepsNames(t, r) {
      forall n | c <= n <= 9 && Occupied(t, n) ensures Listed(r, t[n].fileName) {
        assert Listed(t, t[n].fileName);
      }
    } else {
      var name :| name != "" && Listed(t, name) && !Listed(r, name);
      var n :| 0 <= n <= 9 && t[n].fileName == name;
      assert Occupied(t, n) && Listed(r, r[9].fileName);
    }
  }

  /** In a list without repeats in 1..9: exactly when every slot in use above s repeats the name in slot 0. */
  lemma KnownNameKeepsIff(t: Table, image: ImageSettings, s: int)
    requires RecentOk(t) && image.fileName != "" && 1 <= s <= 9 && t[s].fileName == image.fileName
    ensures KeepsNames(t, Remember(t, image))
            <==> forall n :: s < n <= 9 && Occupied(t, n) ==> t[n].fileName == t[0].fileName
  {
    FirstSlotIsLeast(t, image.fileName, 1);
    var f := FirstSlot(t, image.fileName, 1);
    assert Occupied(t, f) && f == s;
    KnownNameKeepsAnyIff(t, image, s);
    forall n | s < n <= 9 && Occupied(t, n)
      ensures t[n].fileName != image.fileName
      ensures (exists m :: 0 <= m < s && t[m].fileName == t[n].fileName) <==> t[n].fileName == t[0].fileName
    {
      assert Occupied(t, s);
      assert forall m | 1 <= m < s && Occupied(t, m) :: t[m].fileName != t[n].fileName;
    }
  }

  /**
   Mounting a name that is in none of the scanned slots keeps all recent names exactly when it does not overwrite
   slot 0, or slot 0 is empty, holds that very name, or repeats a name of the other slots. This holds of any table.
   */
  lemma NewNameKeepsAnyIff(t: Table, image: ImageSettings)
    requires image.fileName != "" && FirstSlot(t, image.fileName, 1) == 11
    ensures KeepsNames(t, Remember(t, image))
            <==> FreeSlot(t) > 0 || !Occupied(t, 0) || t[0].fileName == image.fileName
                 || ListedFrom(t, t[0].fileName, 1)
  {
    var k, r := FreeSlot(t), Remember(t, image);
    FreeRunEnds(t, 0);
    assert r == t[k := image] && 0 <= k <= 10;
    assert 1 <= k <= 9 ==> !Occupied(t, k);
    forall name | name != "" && Listed(t, name) && (k > 0 || name != t[0].fileName) ensures Listed(r, name) {
      var n :| 0 <= n <= 9 && t[n].fileName == name;
      assert Occupied(t, n) && r[n].fileName == name;
    }
    if k == 0 && Occupied(t, 0) {
      assert Listed(t, t[0].fileName) && r[0] == image;
      assert ListedFrom(r, t[0].fileName, 1) <==> ListedFrom(t, t[0].fileName, 1) by {
        assert forall n | 1 <= n <= 9 :: r[n] == t[n];
      }
    }
  }

  /** The same for a name in none of slots 1..9 of a list as the program's own calls leave it. */
  lemma NewNameKeepsIff(t: Table, image: ImageSettings)
    requires RecentOk(t) && image.fileName != "" && !ListedFrom(t, image.fileName, 1)
    ensures KeepsNames(t, Remember(t, image))
            <==> FreeSlot(t) > 0 || !Occupied(t, 0) || t[0].fileName == image.fileName
                 || ListedFrom(t, t[0].fileName, 1)
  {
    FirstSlotIsLeast(t, image.fileName, 1);
    assert !Occupied(t, 10);
    NewNameKeepsAnyIff(t, image);
  }

  /** After unmounting drive `no` a name is shown exactly if it was in a slot of 1..9 other than `no`. */
  lemma ListedAfterForgetIff(t: Table, no: int, name: string)
    requires name != ""
    ensures Listed(Forget(t, no), name) <==> exists n :: 1 <= n <= 9 && n != no && t[n].fileName == name
  {
    var r := Forget(t, no);
    assert forall n | n != 0 && n != no :: r[n] == t[n];
    if n :| 1 <= n <= 9 && n != no && t[n].fileName == name {
      assert r[n].fileName == name;
    }
  }

  /** A slot other than 0 and `no` shows this name. */
  ghost predicate ShownBeside(t: Table, no: int, name: string) {
    exists n :: 1 <= n <= 9 && n != no && t[n].fileName == name
  }

  /**
   Unmounting drive `no` keeps all recent names exactly when the names in slot 0 and in the slot of that number are
   also in other slots. This holds of any table.
   */
  lemma ForgetKeepsAnyIff(t: Table, no: int)
    ensures KeepsNames(t, Forget(t, no))
            <==> forall m :: 0 <= m <= 9 && (m == 0 || m == no) && Occupied(t, m) ==> ShownBeside(t, no, t[m].fileName)
  {
    forall m | 0 <= m <= 9 && Occupied(t, m)
      ensures Listed(t, t[m].fileName)
      ensures Listed(Forget(t, no), t[m].fileName) <==> ShownBeside(t, no, t[m].fileName)
    {
      ListedAfterForgetIff(t, no, t[m].fileName);
    }
    if !KeepsNames(t, Forget(t, no)) {
      var name :| name != "" && Listed(t, name) && !Listed(Forget(t, no), name);
      var m :| 0 <= m <= 9 && t[m].fileName == name;
      assert Occupied(t, m);
      assert m != 0 && m != no ==> ShownBeside(t, no, name);
    }
  }

  /**
   In a list without repeats in 1..9: exactly when the recent slot of that number, from 1 to 9, is not in use, and
   slot 0 is empty or repeats a name of the other slots.
   */
  lemma ForgetKeepsIff(t: Table, no: int)
    requires RecentOk(t)
    ensures KeepsNames(t, Forget(t, no))
            <==> (1 <= no <= 9 ==> !Occupied(t, no)) && (Occupied(t, 0) ==> ListedFrom(t, t[0].fileName, 1))
  {
    ForgetKeepsAnyIff(t, no);
    if 1 <= no <= 9 && Occupied(t, no) {
      assert forall n | 1 <= n <= 9 && n != no && Occupied(t, n) :: t[n].fileName != t[no].fileName;
      assert forall n | t[n].fileName == t[no].fileName :: Occupied(t, n);
    }
    if Occupied(t, 0) && (1 <= no <= 9 ==> !Occupied(t, no)) {
      assert ShownBeside(t, no, t[0].fileName) <==> ListedFrom(t, t[0].fileName, 1) by {
        assert forall n | t[n].fileName == t[0].fileName :: Occupied(t, n);
      }
    }
  }

  /** In a list with a name in slots 8 and 9 only, unmounting drive 8 keeps every name although slot 8 is in use. */
  lemma ForgetRepeatedExample(t: Table, a: ImageSettings)
    requires a.fileName != "" && t[8] == t[9] == a && forall n | n != 8 && n != 9 :: t[n] == NO_IMAGE
    ensures Occupied(t, 8) && KeepsNames(t, Forget(t, 8))
  {
    assert ShownBeside(t, 8, a.fileName) by {
      assert t[9].fileName == a.fileName;
    }
    ForgetKeepsAnyIff(t, 8);
  }

  lemma RememberFirst(empty: Table, a: ImageSettings)
    requires a.fileName != "" && forall n :: empty[n] == NO_IMAGE
    ensures Remember(empty, a) == empty[9 := a] && RecentOk(empty[9 := a])
  {
    RememberNewName(empty, a, 9);
    NewKeepsOk(empty, a, 9);
  }

  lemma RememberSecond(empty: Table, a: ImageSettings, b: ImageSettings)
    requires a.fileName != "" && b.fileName !in {"", a.fileName} && forall n :: empty[n] == NO_IMAGE
    requires RecentOk(empty[9 := a])
    ensures Remember(empty[9 := a], b) == empty[9 := a][8 := b] && RecentOk(empty[9 := a][8 := b])
  {
    assert Occupied(empty[9 := a], 9);
    RememberNewName(empty[9 := a], b, 8);
    NewKeepsOk(empty[9 := a], b, 8);
  }

  /** Two images mounted, and the later one once more: the earlier one is no longer listed. */
  lemma RememberLosesExample(empty: Table, a: ImageSettings, b: ImageSettings)
    requires a.fileName != "" && b.fileName !in {"", a.fileName} && forall n :: empty[n] == NO_IMAGE
    ensures var t := Remember(Remember(empty, a), b);
            Listed(t, a.fileName) && !Listed(Remember(t, b), a.fileName)
  {
    var t := empty[9 := a][8 := b];
    RememberFirst(empty, a);
    RememberSecond(empty, a, b);
    assert t[9] == a;
    RememberKnownName(t, b, 8);
  }

  /** A list with slots 0 and 1 in use loses the name in slot 0 to a new one, if no other slot repeats it. */
  lemma NewNameLosesZero(t: Table, image: ImageSettings)
    requires RecentOk(t) && Occupied(t, 0) && Occupied(t, 1) && image.fileName !in {"", t[0].fileName}
    requires forall k :: 1 <= k <= 9 ==> t[k].fileName !in {t[0].fileName, image.fileName}
    ensures Listed(t, t[0].fileName) && !Listed(Remember(t, image), t[0].fileName)
  {
    RememberNewName(t, image, 0);
  }

  // ---------- Names shown twice ----------

  /**
   A mount leaves the name it mounts in slot 0 and in another slot at once exactly when slot 0 holds it already and
   it is in slots 1..9 too, or goes to a free slot above 0.
   */
  lemma MountedTwiceIff(t: Table, image: ImageSettings)
    requires RecentOk(t) && image.fileName != ""
    ensures var r := Remember(t, image);
            r[0].fileName == image.fileName && ListedFrom(r, image.fileName, 1)
            <==> t[0].fileName == image.fileName && (ListedFrom(t, image.fileName, 1) || FreeSlot(t) > 0)
  {
    var r := Remember(t, image);
    RememberKeepsOk(t, image);
    if s :| 1 <= s <= 9 && t[s].fileName == image.fileName {
      RememberKnownName(t, image, s);
      assert r[9].fileName == image.fileName;
    } else {
      var k := FreeSlot(t);
      assert !Occupied(t, 11);
      NewNamePlacement(t, k);
      RememberNewName(t, image, k);
      assert k > 0 ==> r[k].fileName == image.fileName;
    }
  }

  /** Mounting this image would put the name in slot 0 into another slot as well. */
  ghost predicate Repeats(t: Table, image: ImageSettings) {
    image.fileName != "" && t[0].fileName == image.fileName && FreeSlot(t) > 0
  }

  /** A list that shows no name twice still shows none twice after a mount, unless the mount repeats slot 0. */
  lemma RememberKeepsDistinctIff(t: Table, image: ImageSettings)
    requires DistinctFrom(t, 0)
    ensures DistinctFrom(Remember(t, image), 0) <==> !Repeats(t, image)
  {
    if image.fileName != "" {
      var r := Remember(t, image);
      RememberKeepsOk(t, image);
      MountedTwiceIff(t, image);
      assert t[0].fileName == image.fileName ==> !ListedFrom(t, image.fileName, 1) by {
        if t[0].fileName == image.fileName { assert Occupied(t, 0); }
      }
      if Repeats(t, image) {
        var n :| 1 <= n <= 9 && r[n].fileName == image.fileName;
        assert Occupied(r, 0);
      } else {
        RepeatedOnlyByMount(t, image);
      }
    }
  }

  lemma RepeatedOnlyByMount(t: Table, image: ImageSettings)
    requires DistinctFrom(t, 0) && image.fileName != "" && RecentOk(Remember(t, image))
    requires var r := Remember(t, image); !(r[0].fileName == image.fileName && ListedFrom(r, image.fileName, 1))
    ensures DistinctFrom(Remember(t, image), 0)
  {
    var r := Remember(t, image);
    forall j | 1 <= j <= 9 && Occupied(r, 0) ensures r[0].fileName != r[j].fileName {
      if r[0].fileName == image.fileName {
        assert r[j].fileName != image.fileName;
      } else {
        FirstSlotIsLeast(t, image.fileName, 1);
        assert r[0] == t[0] && Occupied(t, 0);
        assert r[j] == t[j] || r[j] == NO_IMAGE || r[j] == image;
      }
    }
  }

  /** Unmounting empties slot 0, so afterwards no name is shown twice. */
  lemma ForgetIsDistinct(t: Table, no: int)
    requires RecentOk(t)
    ensures DistinctFrom(Forget(t, no), 0)
  {
    ForgetKeepsOk(t, no);
    assert !Occupied(Forget(t, no), 0);
  }

  /** When the names a of slot 1 and then b of slot 0 of a full list are mounted again, b ends up in slots 0 and 8. */
  lemma MountBottomTwo(t: Table, a: ImageSettings, b: ImageSettings)
    requires RecentOk(t) && t[1] == a && t[0] == b && a.fileName != "" && b.fileName != "" && a.fileName != b.fileName
    ensures var r := Remember(Remember(t, a), b); r[0] == r[8] == b
  {
    RememberKnownName(t, a, 1);
    RememberKeepsOk(t, a);
    var t1 := Remember(t, a);
    assert Occupied(t1, 9) && t1[0] == b && forall k | 1 <= k <= 8 :: t1[k] == NO_IMAGE;
    RememberNewName(t1, b, 8);
  }
}
