/**
 Whole runs of the program: mounting, unmounting, swapping and protecting images, saving and loading sessions,
 and other settings. A run on the settings store is shown to be a run on the two tables; what runs do is then
 proved on the tables.
 */
module ImageRuns {
  import opened SettingsStore
  import opened Tables
  import opened RecentNames
  import opened ImageTables
  import opened Session
  import Decimal

  /**
   One call that works on the settings store. `Load` comes with the contents of the session file, whoever wrote
   it; saving leaves the store as it is. `Other` is any setter for a key outside the two image tables.
   */
  datatype Call =
    | Mount(no: int, image: ImageSettings)
    | Unmount(no: int)
    | Swap(no1: int, no2: int)
    | Protect(no: int, prot: bool)
    | Save
    | Load(file: Store)
    | Other(key: Path, value: Variant)
  {
    /** Nothing is stored under the empty key, and no value is an image record: there is no way to write one. */
    ghost predicate Allowed() {
      && (Other? ==> Elsewhere(key) && key != [] && !value.Image?)
      && (Load? ==> NoImages(file) && [] !in file)
    }
  }

  ghost function StepStore(d: Store, call: Call): Store {
    match call
    case Mount(no, image) => Mounted(d, no, image)
    case Unmount(no) => Unmounted(d, no)
    case Swap(no1, no2) => Swapped(d, no1, no2)
    case Protect(no, prot) => Protected(d, no, prot)
    case Save => d
    case Load(file) => Loaded(d, file)
    case Other(key, value) => d[key := value]
  }

  ghost function RunStore(d: Store, calls: seq<Call>): Store {
    if calls == [] then d else StepStore(RunStore(d, calls[..|calls| - 1]), calls[|calls| - 1])
  }

  ghost function Step(v: View, call: Call): View {
    match call
    case Mount(no, image) => AfterMount(v, no, image)
    case Unmount(no) => AfterUnmount(v, no)
    case Swap(no1, no2) => AfterSwap(v, no1, no2)
    case Protect(no, prot) => AfterProtect(v, no, prot)
    case Save => v
    case Load(file) => AfterLoad(v, file)
    case Other(key, value) => AfterOther(v, key, value)
  }

  ghost function Run(v: View, calls: seq<Call>): View {
    if calls == [] then v else Step(Run(v, calls[..|calls| - 1]), calls[|calls| - 1])
  }

  lemma StepRefines(d: Store, call: Call)
    requires NoImages(d) && call.Allowed()
    ensures NoImages(StepStore(d, call)) && ViewOf(StepStore(d, call)) == Step(ViewOf(d), call)
  {
    match call {
      case Mount(no, image) => MountedView(d, no, image);
      case Unmount(no) => UnmountedView(d, no);
      case Swap(no1, no2) => SwappedView(d, no1, no2);
      case Protect(no, prot) => ProtectedView(d, no, prot);
      case Save =>
      case Load(file) => LoadedView(d, file);
      case Other(key, value) => OtherView(d, key, value);
    }
  }

  /**
   Refinement: whatever calls are made, in whatever order and for whatever drive numbers, the store shows the
   tables that the simple table operations predict, and it never comes to hold a whole image record.
   */
  lemma {:induction false} RunRefines(d: Store, calls: seq<Call>)
    requires NoImages(d) && forall c | c in calls :: c.Allowed()
    ensures NoImages(RunStore(d, calls))
    ensures ViewOf(RunStore(d, calls)) == Run(ViewOf(d), calls)
  {
    if calls != [] {
      RunRefines(d, calls[..|calls| - 1]);
      StepRefines(RunStore(d, calls[..|calls| - 1]), calls[|calls| - 1]);
    }
  }

  lemma StepStaysValid(d: Store, call: Call)
    requires [] !in d && NoImages(d) && call.Allowed()
    ensures [] !in StepStore(d, call)
  {
    StepRefines(d, call);
    EmptyKeyInRest(d);
    EmptyKeyInRest(StepStore(d, call));
  }

  lemma EmptyKeyInRest(d: Store)
    ensures [] in d <==> [] in Rest(d)
  {
    assert Elsewhere([]);
  }

  /** The store of a run never has a value under the empty key, as the settings class requires. */
  lemma {:induction false} RunStaysValid(d: Store, calls: seq<Call>)
    requires [] !in d && NoImages(d) && forall c | c in calls :: c.Allowed()
    ensures [] !in RunStore(d, calls)
  {
    if calls != [] {
      var init := calls[..|calls| - 1];
      RunStaysValid(d, init);
      RunRefines(d, init);
      StepStaysValid(RunStore(d, init), calls[|calls| - 1]);
    }
  }

  lemma {:induction false} RunConcat(v: View, a: seq<Call>, b: seq<Call>)
    ensures Run(v, a + b) == Run(Run(v, a), b)
  {
    if b == [] {
      assert a + b == a;
    } else {
      RunConcat(v, a, b[..|b| - 1]);
      assert (a + b)[..|a + b| - 1] == a + b[..|b| - 1];
    }
  }

  // ---------- The recent images over runs ----------

  /** Whether a call keeps names unique in slots 1..9: every call does but some loads. */
  ghost predicate KeepsOk(v: View, call: Call) {
    call.Load? ==> LoadSafe(v.recent, call.file, 1)
  }

  lemma StepKeepsOkIff(v: View, call: Call)
    requires RecentOk(v.recent)
    ensures RecentOk(Step(v, call).recent) <==> KeepsOk(v, call)
  {
    match call {
      case Mount(no, image) => RememberKeepsOk(v.recent, image);
      case Unmount(no) => ForgetKeepsOk(v.recent, no);
      case Load(file) => LoadKeepsDistinctIff(v.recent, file, 1);
      case _ =>
    }
  }

  /** No load of the run makes a name repeat in slots 1..9, given the state it happens in. */
  ghost predicate LoadsKeepOk(v: View, calls: seq<Call>) {
    calls == [] || (var init := calls[..|calls| - 1];
                    LoadsKeepOk(v, init) && KeepsOk(Run(v, init), calls[|calls| - 1]))
  }

  /** The recent images stay well-formed over every run whose loads do not clash, whatever drives the calls name. */
  lemma {:induction false} RunKeepsOk(v: View, calls: seq<Call>)
    requires RecentOk(v.recent) && LoadsKeepOk(v, calls)
    ensures RecentOk(Run(v, calls).recent)
  {
    if calls != [] {
      RunKeepsOk(v, calls[..|calls| - 1]);
      StepKeepsOkIff(Run(v, calls[..|calls| - 1]), calls[|calls| - 1]);
    }
  }

  lemma {:induction false} WithoutLoads(v: View, calls: seq<Call>)
    requires forall i :: 0 <= i < |calls| ==> !calls[i].Load?
    ensures LoadsKeepOk(v, calls)
  {
    if calls != [] {
      WithoutLoads(v, calls[..|calls| - 1]);
    }
  }

  /** Whether a call keeps a list that shows no name twice in 0..9 that way: some mounts and loads do not. */
  ghost predicate KeepsDistinct(v: View, call: Call) {
    && (call.Mount? ==> !Repeats(v.recent, call.image))
    && (call.Load? ==> LoadSafe(v.recent, call.file, 0))
  }

  /** The condition is exact for every call. */
  lemma StepKeepsDistinctIff(v: View, call: Call)
    requires DistinctFrom(v.recent, 0)
    ensures DistinctFrom(Step(v, call).recent, 0) <==> KeepsDistinct(v, call)
  {
    match call {
      case Mount(no, image) => RememberKeepsDistinctIff(v.recent, image);
      case Unmount(no) => ForgetIsDistinct(v.recent, no);
      case Load(file) => LoadKeepsDistinctIff(v.recent, file, 0);
      case _ =>
    }
  }

  ghost predicate StaysDistinct(v: View, calls: seq<Call>) {
    calls == [] || (var init := calls[..|calls| - 1];
                    StaysDistinct(v, init) && KeepsDistinct(Run(v, init), calls[|calls| - 1]))
  }

  /** No run whose mounts do not repeat slot 0 and whose loads do not clash shows a name twice in slots 0..9. */
  lemma {:induction false} RunKeepsDistinct(v: View, calls: seq<Call>)
    requires DistinctFrom(v.recent, 0) && StaysDistinct(v, calls)
    ensures DistinctFrom(Run(v, calls).recent, 0)
  {
    if calls != [] {
      RunKeepsDistinct(v, calls[..|calls| - 1]);
      StepKeepsDistinctIff(Run(v, calls[..|calls| - 1]), calls[|calls| - 1]);
    }
  }

  /** A store without recent images, for instance an empty one, is a good start. */
  lemma FreshStoreOk(d: Store)
    requires forall key | key in d :: key == [] || key[0] != RECENT
    ensures RecentOk(Recent(d)) && forall n :: !Occupied(Recent(d), n)
  {
    forall n ensures !Occupied(Recent(d), n) {
      assert NameKey(RECENT, n)[0] == RECENT;
    }
  }

  /** Every file that the run loads has a good list of its own, without a clash with the live one at that moment. */
  ghost predicate LoadsAreSafe(d: Store, calls: seq<Call>) {
    calls == [] || (var init, last := calls[..|calls| - 1], calls[|calls| - 1];
                    LoadsAreSafe(d, init) && (last.Load? ==> LoadSafe(Recent(RunStore(d, init)), last.file, 1)))
  }

  lemma {:induction false} SafeLoadsKeepOk(d: Store, calls: seq<Call>)
    requires NoImages(d) && LoadsAreSafe(d, calls) && forall c | c in calls :: c.Allowed()
    ensures LoadsKeepOk(ViewOf(d), calls)
  {
    if calls != [] {
      SafeLoadsKeepOk(d, calls[..|calls| - 1]);
      RunRefines(d, calls[..|calls| - 1]);
    }
  }

  /**
   From a store without recent images, no run lists a name twice in slots 1..9 or uses a slot outside 0..9,
   provided that the files it loads are safe to load.
   */
  lemma RecentImagesSound(d: Store, calls: seq<Call>)
    requires NoImages(d) && forall key | key in d :: key == [] || key[0] != RECENT
    requires LoadsAreSafe(d, calls) && forall c | c in calls :: c.Allowed()
    ensures RecentOk(Recent(RunStore(d, calls)))
  {
    FreshStoreOk(d);
    RunRefines(d, calls);
    SafeLoadsKeepOk(d, calls);
    RunKeepsOk(ViewOf(d), calls);
  }

  ghost predicate AllMounts(calls: seq<Call>) {
    forall i :: 0 <= i < |calls| ==> calls[i].Mount?
  }

  ghost function Images(calls: seq<Call>): (images: seq<ImageSettings>)
    requires AllMounts(calls)
    ensures |images| == |calls| && forall i :: 0 <= i < |calls| ==> images[i] == calls[i].image
  {
    seq(|calls|, i requires 0 <= i < |calls| => calls[i].image)
  }

  /** Mounting n distinct names fills slots 9, 8, ..., 1 in turn; every later name replaces slot 0. */
  lemma {:induction false} FillOrder(v: View, calls: seq<Call>)
    requires RecentOk(v.recent) && (forall k :: 1 <= k <= 9 ==> !Occupied(v.recent, k))
    requires AllMounts(calls) && DistinctNames(Images(calls))
    ensures FilledBy(Run(v, calls).recent, Images(calls))
  {
    if calls != [] {
      var init, last := calls[..|calls| - 1], calls[|calls| - 1];
      assert Images(calls) == Images(init) + [last.image];
      DistinctInit(Images(init), last.image);
      FillOrder(v, init);
      WithoutLoads(v, init);
      RunKeepsOk(v, init);
      FillStep(Run(v, init).recent, Images(init), last.image);
    }
  }

  /** The same for the store itself, whatever other settings it holds. */
  lemma FillOrderInStore(d: Store, calls: seq<Call>)
    requires NoImages(d) && forall key | key in d :: key == [] || key[0] != RECENT
    requires AllMounts(calls) && DistinctNames(Images(calls))
    ensures FilledBy(Recent(RunStore(d, calls)), Images(calls))
  {
    FreshStoreOk(d);
    RunRefines(d, calls);
    MountsFill(ViewOf(d), calls);
  }

  // ---------- A full list, and what can happen to it ----------

  /** Ten images with distinct names, mounted one after the other. */
  ghost function TenMounts(): (calls: seq<Call>)
    ensures AllMounts(calls) && |calls| == 10 && forall i :: 0 <= i < 10 ==> calls[i].image == Numbered(i)
  {
    seq(10, i => Mount(i, Numbered(i)))
  }

  ghost function Numbered(i: int): ImageSettings {
    ImageSettings(Decimal.OfInt(i), false)
  }

  lemma NumberedDistinct(i: int, j: int)
    requires i != j
    ensures Numbered(i).fileName != Numbered(j).fileName && Numbered(i).fileName != ""
  {
    if Decimal.OfInt(i) == Decimal.OfInt(j) {
      Decimal.Injective(i, j);
    }
  }

  lemma TenDistinct()
    ensures DistinctNames(Images(TenMounts()))
  {
    var images := Images(TenMounts());
    assert forall i | 0 <= i < |images| :: images[i] == Numbered(i);
    forall i, j | 0 <= i < j < |images| ensures images[i].fileName != images[j].fileName {
      NumberedDistinct(i, j);
    }
    forall i | 0 <= i < |images| ensures images[i].fileName != "" {
      NumberedDistinct(i, -1);
    }
  }

  lemma MountsFill(v: View, calls: seq<Call>)
    requires forall n :: !Occupied(v.recent, n)
    requires AllMounts(calls) && DistinctNames(Images(calls))
    ensures RecentOk(Run(v, calls).recent) && FilledBy(Run(v, calls).recent, Images(calls))
  {
    FillOrder(v, calls);
    WithoutLoads(v, calls);
    RunKeepsOk(v, calls);
  }

  lemma FilledByTen(t: Table, images: seq<ImageSettings>)
    requires |images| == 10 && FilledBy(t, images) && forall i :: 0 <= i < 10 ==> images[i] == Numbered(i)
    ensures t[0] == Numbered(9) && forall k :: 1 <= k <= 9 ==> t[k] == Numbered(9 - k)
  {
  }

  /** After ten mounts slots 9 down to 1 hold the first nine images, and slot 0 the tenth. */
  lemma FullList(v: View)
    requires forall n :: !Occupied(v.recent, n)
    ensures var t := Run(v, TenMounts()).recent;
            RecentOk(t) && t[0] == Numbered(9) && forall k :: 1 <= k <= 9 ==> t[k] == Numbered(9 - k)
  {
    TenDistinct();
    MountsFill(v, TenMounts());
    FilledByTen(Run(v, TenMounts()).recent, Images(TenMounts()));
  }

  lemma RunThen(v: View, calls: seq<Call>, last: Call)
    ensures Run(v, calls + [last]) == Step(Run(v, calls), last)
  {
    assert (calls + [last])[..|calls|] == calls;
  }

  /** From a full list, unmounting any drive at all drops the name mounted last. */
  lemma UnmountDropsLatestExample(v: View, no: int)
    requires forall n :: !Occupied(v.recent, n)
    ensures Listed(Run(v, TenMounts()).recent, Numbered(9).fileName)
    ensures !Listed(Run(v, TenMounts() + [Unmount(no)]).recent, Numbered(9).fileName)
  {
    var t := Run(v, TenMounts()).recent;
    FullList(v);
    RunThen(v, TenMounts(), Unmount(no));
    assert t[0].fileName == Numbered(9).fileName;
    NumberedDistinct(9, 0);
    forall k | 1 <= k <= 9 ensures t[k].fileName != Numbered(9).fileName {
      NumberedDistinct(9, 9 - k);
    }
    ListedAfterForgetIff(t, no, Numbered(9).fileName);
  }

  /** From a full list, an eleventh name drops the name mounted just before. */
  lemma EleventhMountExample(v: View)
    requires forall n :: !Occupied(v.recent, n)
    ensures Listed(Run(v, TenMounts()).recent, Numbered(9).fileName)
    ensures !Listed(Run(v, TenMounts() + [Mount(0, Numbered(10))]).recent, Numbered(9).fileName)
  {
    var t := Run(v, TenMounts()).recent;
    FullList(v);
    RunThen(v, TenMounts(), Mount(0, Numbered(10)));
    NumberedDistinct(10, 9);
    NumberedDistinct(9, 10);
    NumberedDistinct(8, 9);
    assert t[1] == Numbered(8);
    forall k | 1 <= k <= 9 ensures t[k].fileName !in {Numbered(9).fileName, Numbered(10).fileName} {
      NumberedDistinct(9 - k, 9);
      NumberedDistinct(9 - k, 10);
    }
    NewNameLosesZero(t, Numbered(10));
  }

  /** From a full list, mounting the name of slot 1 and then that of slot 0 again shows the latter in slots 0 and 8. */
  lemma MountedTwiceExample(v: View)
    requires forall n :: !Occupied(v.recent, n)
    ensures var t := Run(v, TenMounts() + [Mount(0, Numbered(8))] + [Mount(0, Numbered(9))]).recent;
            t[0] == t[8] == Numbered(9)
  {
    var t := Run(v, TenMounts()).recent;
    FullList(v);
    RunThen(v, TenMounts(), Mount(0, Numbered(8)));
    RunThen(v, TenMounts() + [Mount(0, Numbered(8))], Mount(0, Numbered(9)));
    NumberedDistinct(9, 8);
    NumberedDistinct(8, 9);
    assert t[1] == Numbered(8);
    MountBottomTwo(t, Numbered(8), Numbered(9));
  }

  // ---------- Unmounting ----------

  /**
   Unmounting is meant to record the image in recent slot 0, but the record it reads is never stored:
   slot 0 receives what was in the drive exactly when the drive was empty.
   */
  lemma UnmountRecordsImageIff(d: Store, no: int)
    requires NoImages(d)
    ensures Recent(Unmounted(d, no))[0] == Drives(d)[no] <==> Drives(d)[no] == NO_IMAGE
  {
    UnmountedView(d, no);
  }

  /** The unmounted image is still a recent name exactly if a slot of 1..9 other than the drive's has its name. */
  lemma UnmountedStaysListedIff(d: Store, no: int)
    requires NoImages(d) && Drives(d)[no].fileName != ""
    ensures Listed(Recent(Unmounted(d, no)), Drives(d)[no].fileName)
            <==> exists n :: 1 <= n <= 9 && n != no && Recent(d)[n].fileName == Drives(d)[no].fileName
  {
    UnmountedView(d, no);
    ListedAfterForgetIff(Recent(d), no, Drives(d)[no].fileName);
  }

  lemma UnmountOnlyImage(d: Store, t: Table, no: int, image: ImageSettings)
    requires NoImages(d) && image.fileName != "" && Recent(d) == t[9 := image] && forall n :: t[n] == NO_IMAGE
    ensures var r := Recent(Unmounted(d, no));
            r[0] == NO_IMAGE && (Listed(r, image.fileName) <==> no != 9)
  {
    UnmountedView(d, no);
    ListedAfterForgetIff(Recent(d), no, image.fileName);
    assert Recent(d)[9].fileName == image.fileName;
  }

  /**
   For instance, an image mounted in an empty store goes to recent slot 9. After unmounting it is not in slot 0; it
   is still listed if the drive had another number than 9, and forgotten altogether if it was drive 9.
   */
  lemma UnmountForgetsExample(d: Store, no: int, image: ImageSettings)
    requires NoImages(d) && image.fileName != "" && forall n :: Recent(d)[n] == NO_IMAGE
    ensures var r := Recent(Unmounted(Mounted(d, no, image), no));
            r[0] == NO_IMAGE && (Listed(r, image.fileName) <==> no != 9)
  {
    FirstMount(d, no, image);
    MountedView(d, no, image);
    UnmountOnlyImage(Mounted(d, no, image), Recent(d), no, image);
  }

  /** Mounting and unmounting a drive leaves all drives as if the drive had only been emptied. */
  lemma MountThenUnmount(v: View, no: int, image: ImageSettings)
    requires image.fileName != ""
    ensures Step(v, Mount(no, image)).drives[no] == image
    ensures Step(Step(v, Mount(no, image)), Unmount(no)).drives == v.drives[no := NO_IMAGE]
  {
  }

  // ---------- Swapping ----------

  ghost predicate AllSwaps(calls: seq<Call>) {
    forall c | c in calls :: c.Swap?
  }

  /** Any run of swaps among the drives lo..hi only permutes the images mounted there. */
  lemma {:induction false} SwapRunPermutes(v: View, calls: seq<Call>, lo: int, hi: int)
    requires lo <= hi && AllSwaps(calls)
    requires forall c | c in calls :: lo <= c.no1 < hi && lo <= c.no2 < hi
    ensures multiset(Window(Run(v, calls).drives, lo, hi)) == multiset(Window(v.drives, lo, hi))
  {
    if calls != [] {
      var init, last := calls[..|calls| - 1], calls[|calls| - 1];
      SwapRunPermutes(v, init, lo, hi);
      ExchangePermutes(Run(v, init).drives, last.no1, last.no2, lo, hi);
    }
  }

  /** A run of swaps leaves the recent images and every other setting alone. */
  lemma {:induction false} SwapRunFrame(v: View, calls: seq<Call>)
    requires AllSwaps(calls)
    ensures Run(v, calls).recent == v.recent && Run(v, calls).rest == v.rest
  {
    if calls != [] {
      SwapRunFrame(v, calls[..|calls| - 1]);
      assert calls[|calls| - 1] in calls;
    }
  }

  /** Runs of swaps need no condition on the store to refine. */
  lemma {:induction false} SwapRunRefines(d: Store, calls: seq<Call>)
    requires AllSwaps(calls)
    ensures ViewOf(RunStore(d, calls)) == Run(ViewOf(d), calls)
  {
    if calls != [] {
      var init, last := calls[..|calls| - 1], calls[|calls| - 1];
      SwapRunRefines(d, init);
      SwappedView(RunStore(d, init), last.no1, last.no2);
    }
  }

  ghost function Reversed(calls: seq<Call>): (r: seq<Call>)
    ensures AllSwaps(calls) ==> AllSwaps(r)
  {
    if calls == [] then [] else [calls[|calls| - 1]] + Reversed(calls[..|calls| - 1])
  }

  lemma SwapTwice(v: View, swap: Call)
    requires swap.Swap?
    ensures Step(Step(v, swap), swap) == v
  {
    assert Exchanged(Exchanged(v.drives, swap.no1, swap.no2), swap.no1, swap.no2) == v.drives;
  }

  lemma RunOne(v: View, call: Call)
    ensures Run(v, [call]) == Step(v, call)
  {
    assert [call][..0] == [];
  }

  /** Doing the swaps once more in reverse order restores everything. */
  lemma {:induction false} SwapRunUndone(v: View, calls: seq<Call>)
    requires AllSwaps(calls)
    ensures Run(Run(v, calls), Reversed(calls)) == v
  {
    if calls != [] {
      var init, last := calls[..|calls| - 1], calls[|calls| - 1];
      var mid := Run(v, init);
      RunConcat(Run(v, calls), [last], Reversed(init));
      RunOne(Run(v, calls), last);
      SwapTwice(mid, last);
      SwapRunUndone(v, init);
    }
  }

  /** The same for the store: swaps permute the drives, leave the rest alone, and can be undone. */
  lemma SwapRunInStore(d: Store, calls: seq<Call>, lo: int, hi: int)
    requires lo <= hi && AllSwaps(calls) && forall c | c in calls :: lo <= c.no1 < hi && lo <= c.no2 < hi
    ensures var r := RunStore(d, calls);
            && multiset(Window(Drives(r), lo, hi)) == multiset(Window(Drives(d), lo, hi))
            && Recent(r) == Recent(d) && Rest(r) == Rest(d)
            && ViewOf(RunStore(r, Reversed(calls))) == ViewOf(d)
  {
    SwapRunRefines(d, calls);
    SwapRunRefines(RunStore(d, calls), Reversed(calls));
    SwapRunPermutes(ViewOf(d), calls, lo, hi);
    SwapRunFrame(ViewOf(d), calls);
    SwapRunUndone(ViewOf(d), calls);
  }
}
