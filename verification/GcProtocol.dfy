/**
 Opening, closing and collecting as interleaved steps: any number of requesters, terminators that close,
 open and load while a pass is under way, and the counter that makes one collector redo the work of all.
 */
module GcProtocol {
  import opened ImageGraph
  import opened Unloading

  /** A collection loop: about to mark; marked, with terminators running; dead images removed. */
  datatype Phase = AtTop | Marked(doomed: set<Address>) | Removed

  const MAX_INT32 := 0x7FFF_FFFF

  /** `pending` counts closers that erased an entry and have not yet requested a collection.
      The remaining fields are history: requests and erasures since the last mark. */
  datatype World = World(
    loaded: seq<LoadedImage>, counts: seq<DlopenCount>, gcCount: int, loops: seq<Phase>, pending: nat,
    requestsSinceMark: nat, erasedSinceMark: nat)

  datatype Action =
    | Load(images: seq<LoadedImage>, top: LoadedImage)
    | Open(address: Address)
    | Close(address: Address)
    | Request
    | Mark(i: nat)
    | Remove(i: nat)
    | Decrement(i: nat)

  predicate LoadedAt(loaded: seq<LoadedImage>, address: Address)
  {
    exists k :: 0 <= k < |loaded| && loaded[k].loadAddress == address
  }

  predicate Enabled(w: World, a: Action)
  {
    match a
    case Load(images, top) => UniqueAddresses(w.loaded + images) && top in images
    case Open(address) => exists k :: 0 <= k < |w.loaded| && w.loaded[k].loadAddress == address && !w.loaded[k].inDyldCache
    case Close(address) =>
      ValidCounts(w.counts)
      && exists k :: 0 <= k < |w.loaded| && w.loaded[k].loadAddress == address && !w.loaded[k].neverUnload
    case Request => w.pending > 0 && w.gcCount < MAX_INT32
    case Mark(i) => i < |w.loops| && w.loops[i].AtTop?
    case Remove(i) => i < |w.loops| && w.loops[i].Marked?
    case Decrement(i) => i < |w.loops| && w.loops[i].Removed?
  }

  /** dlopen of an image in the shared cache takes no reference. */
  function OpenedTop(w: World, top: LoadedImage): seq<DlopenCount>
  {
    if top.inDyldCache then w.counts else Incremented(w.counts, top.loadAddress)
  }

  ghost function Step(w: World, a: Action): World
    requires Enabled(w, a)
  {
    match a
    case Load(images, top) =>
      w.(loaded := w.loaded + images, counts := OpenedTop(w, top))
    case Open(address) =>
      w.(counts := Incremented(w.counts, address))
    case Close(address) =>
      var (counts, doCollect) := Decremented(w.counts, address);
      var one := if doCollect then 1 else 0;
      w.(counts := counts, pending := w.pending + one, erasedSinceMark := w.erasedSinceMark + one)
    case Request =>
      var now := w.gcCount + 1;
      w.(pending := w.pending - 1, gcCount := now, requestsSinceMark := w.requestsSinceMark + 1,
         loops := if now != 1 then w.loops else w.loops + [AtTop])
    case Mark(i) =>
      w.(loops := w.loops[i := Marked(Dead(w.loaded, w.counts))], requestsSinceMark := 0, erasedSinceMark := 0)
    case Remove(i) =>
      w.(loaded := Remaining(w.loaded, w.loops[i].doomed), loops := w.loops[i := Removed])
    case Decrement(i) =>
      var now := w.gcCount - 1;
      w.(gcCount := now, loops := if now > 0 then w.loops[i := AtTop] else w.loops[..i] + w.loops[i + 1..])
  }

  // ----- the counter protocol ------------------------------------------------------------------

  /** One loop at most, running exactly while the count is positive; past its mark, the count covers
      every request made since; erasures not yet collected are pending or requested. */
  predicate CounterOk(w: World)
  {
    && |w.loops| <= 1
    && w.gcCount >= 0
    && (w.loops == [] <==> w.gcCount == 0)
    && (w.loops == [] ==> w.requestsSinceMark == 0)
    && (w.loops != [] && !w.loops[0].AtTop? ==> w.gcCount >= 1 + w.requestsSinceMark)
    && w.erasedSinceMark <= w.pending + w.requestsSinceMark
  }

  lemma CounterStep(w: World, a: Action)
    requires CounterOk(w) && Enabled(w, a)
    ensures CounterOk(Step(w, a))
  {
  }

  // ----- counts and addresses ------------------------------------------------------------------

  ghost predicate CountsOk(w: World)
  {
    && UniqueAddresses(w.loaded)
    && ValidCounts(w.counts)
    && (forall k :: 0 <= k < |w.counts| ==> LoadedAt(w.loaded, w.counts[k].loadAddress))
  }

  lemma IncrementedLoaded(w: World, loaded: seq<LoadedImage>, address: Address)
    requires CountsOk(w) && (forall x :: LoadedAt(w.loaded, x) ==> LoadedAt(loaded, x)) && LoadedAt(loaded, address)
    ensures var r := Incremented(w.counts, address);
            && ValidCounts(r)
            && (forall k :: 0 <= k < |r| ==> LoadedAt(loaded, r[k].loadAddress))
  {
    hide ValidCounts, CountOf, LoadedAt;
    IncrementedCounts(w.counts, address, address);
  }

  lemma MoreLoaded(loaded: seq<LoadedImage>, images: seq<LoadedImage>, x: Address)
    ensures LoadedAt(loaded, x) || LoadedAt(images, x) ==> LoadedAt(loaded + images, x)
  {
    var s := loaded + images;
    if LoadedAt(loaded, x) {
      var k :| 0 <= k < |loaded| && loaded[k].loadAddress == x;
      assert s[k].loadAddress == x;
    }
    if LoadedAt(images, x) {
      var k :| 0 <= k < |images| && images[k].loadAddress == x;
      assert s[|loaded| + k].loadAddress == x;
    }
  }

  lemma LoadCounts(w: World, images: seq<LoadedImage>, top: LoadedImage)
    requires CountsOk(w) && Enabled(w, Load(images, top))
    ensures CountsOk(Step(w, Load(images, top)))
  {
    hide ValidCounts, CountOf, LoadedAt, Incremented;
    var loaded := w.loaded + images;
    forall x | LoadedAt(w.loaded, x) ensures LoadedAt(loaded, x) { MoreLoaded(w.loaded, images, x); }
    TopLoaded(images, top);
    MoreLoaded(w.loaded, images, top.loadAddress);
    if !top.inDyldCache { IncrementedLoaded(w, loaded, top.loadAddress); }
  }

  lemma TopLoaded(images: seq<LoadedImage>, top: LoadedImage)
    requires top in images
    ensures LoadedAt(images, top.loadAddress)
  {
  }

  lemma CloseCounts(w: World, address: Address)
    requires CountsOk(w) && Enabled(w, Close(address))
    ensures CountsOk(Step(w, Close(address)))
  {
    hide CountOf, LoadedAt, EntryFor;
    DecrementedCounts(w.counts, address, address);
  }

  /** Removal keeps an image at exactly the addresses outside the doomed ones. */
  lemma StillLoaded(loaded: seq<LoadedImage>, doomed: set<Address>, x: Address)
    requires LoadedAt(loaded, x)
    ensures LoadedAt(Remaining(loaded, doomed), x) <==> x !in doomed
  {
    var kept := Remaining(loaded, doomed);
    var k :| 0 <= k < |loaded| && loaded[k].loadAddress == x;
    assert loaded[k] in loaded;
    assert x !in doomed ==> loaded[k] in kept;
    assert forall j :: 0 <= j < |kept| ==> kept[j] in kept;
  }

  lemma RemoveCounts(w: World, i: nat)
    requires CountsOk(w) && Enabled(w, Remove(i)) && RootsSafe(w, w.loops[i].doomed)
    ensures CountsOk(Step(w, Remove(i)))
  {
    hide CountOf, HoldsRoots, ClosedUnderDependents;
    var doomed := w.loops[i].doomed;
    var r := Step(w, Remove(i));
    forall k | 0 <= k < |w.counts| ensures LoadedAt(r.loaded, w.counts[k].loadAddress) {
      RootNotDoomed(w, doomed, w.counts[k].loadAddress);
      StillLoaded(w.loaded, doomed, w.counts[k].loadAddress);
    }
  }

  // ----- safety of removal ---------------------------------------------------------------------

  /** The unloadable images that would stay. */
  function Staying(w: World, doomed: set<Address>): set<Address>
  {
    set li | li in w.loaded && !li.neverUnload && li.loadAddress !in doomed :: li.loadAddress
  }

  /** The doomed addresses are unloadable images, none of them dlopened. */
  ghost predicate RootsSafe(w: World, doomed: set<Address>)
  {
    && (forall x :: x in doomed ==> exists li :: li in w.loaded && !li.neverUnload && li.loadAddress == x)
    && HoldsRoots(w.loaded, w.counts, Staying(w, doomed))
  }

  /** Removing the doomed addresses would drop no dlopened image and nothing such an image reaches. */
  ghost predicate DoomedSafe(w: World, doomed: set<Address>)
  {
    RootsSafe(w, doomed) && ClosedUnderDependents(w.loaded, Staying(w, doomed))
  }

  lemma SameAddress(loaded: seq<LoadedImage>, a: LoadedImage, b: LoadedImage)
    requires UniqueAddresses(loaded) && a in loaded && b in loaded && a.loadAddress == b.loadAddress
    ensures a == b
  {
  }

  lemma RootNotDoomed(w: World, doomed: set<Address>, x: Address)
    requires CountsOk(w) && RootsSafe(w, doomed) && exists k :: 0 <= k < |w.counts| && w.counts[k].loadAddress == x
    ensures x !in doomed
  {
    hide CountOf, ClosedUnderDependents;
    forall li | li in w.loaded && !li.neverUnload && li.loadAddress == x ensures x in Staying(w, doomed) {
      assert Root(w.counts, li);
    }
  }

  /** A doomed address is never live. */
  lemma DoomedNotLive(w: World, doomed: set<Address>, x: Address)
    requires DoomedSafe(w, doomed) && x in doomed
    ensures !Live(w.loaded, w.counts, x)
  {
    hide HoldsRoots, ClosedUnderDependents;
    assert x !in Staying(w, doomed);
  }

  lemma MarkSafe(w: World)
    requires UniqueAddresses(w.loaded)
    ensures DoomedSafe(w, Dead(w.loaded, w.counts))
  {
    hide Live, Root, Depends;
    var dead := Dead(w.loaded, w.counts);
    var stay := Staying(w, dead);
    forall li | li in w.loaded && !li.neverUnload ensures li.loadAddress in stay <==> Live(w.loaded, w.counts, li.loadAddress) {
      if Live(w.loaded, w.counts, li.loadAddress) && li.loadAddress in dead {
        assert false;
      }
    }
    forall li | li in w.loaded && !li.neverUnload && Root(w.counts, li) ensures li.loadAddress in stay {
      RootsLive(w.loaded, w.counts, li);
    }
    forall a, b | a in w.loaded && !a.neverUnload && a.loadAddress in stay && b in w.loaded && !b.neverUnload && Depends(a, b)
      ensures b.loadAddress in stay
    {
      DependentsLive(w.loaded, w.counts, a, b);
    }
  }

  /** Opens and loads made while a pass is between marking and removing leave the doomed images alone:
      no doomed image is opened, and no newly loaded unloadable image depends on one. */
  predicate NestedSafe(w: World, doomed: set<Address>, a: Action)
  {
    match a
    case Open(address) => address !in doomed
    case Load(images, top) =>
      forall n, d :: n in images && !n.neverUnload && d in w.loaded && d.loadAddress in doomed ==> !Depends(n, d)
    case _ => true
  }

  lemma OpenRoots(w: World, doomed: set<Address>, address: Address)
    requires CountsOk(w) && RootsSafe(w, doomed) && Enabled(w, Open(address))
    ensures RootsSafe(Step(w, Open(address)), doomed) <==> address !in doomed
  {
    hide LoadedAt;
    var r := Step(w, Open(address));
    assert Staying(r, doomed) == Staying(w, doomed);
    forall li ensures Root(r.counts, li) <==> Root(w.counts, li) || li.loadAddress == address {
      RootIffCount(r.counts, li) by { IncrementedCounts(w.counts, address, address); }
      RootIffCount(w.counts, li);
      IncrementedCounts(w.counts, address, li.loadAddress);
    }
    if address in doomed {
      var li :| li in w.loaded && !li.neverUnload && li.loadAddress == address;
      assert Root(r.counts, li) && address !in Staying(r, doomed);
    }
  }

  lemma OpenSafe(w: World, doomed: set<Address>, address: Address)
    requires CountsOk(w) && DoomedSafe(w, doomed) && Enabled(w, Open(address))
    ensures DoomedSafe(Step(w, Open(address)), doomed) <==> address !in doomed
  {
    hide Depends, LoadedAt, CountsOk, RootsSafe;
    OpenRoots(w, doomed, address);
    assert Staying(Step(w, Open(address)), doomed) == Staying(w, doomed);
  }

  lemma CloseRoots(w: World, doomed: set<Address>, address: Address)
    requires CountsOk(w) && RootsSafe(w, doomed) && Enabled(w, Close(address))
    ensures RootsSafe(Step(w, Close(address)), doomed)
  {
    hide LoadedAt;
    var r := Step(w, Close(address));
    assert Staying(r, doomed) == Staying(w, doomed);
    DecrementedCounts(w.counts, address, address);
    forall li | Root(r.counts, li) ensures Root(w.counts, li) {
      RootIffCount(r.counts, li);
      RootIffCount(w.counts, li);
      DecrementedCounts(w.counts, address, li.loadAddress);
    }
  }

  lemma CloseSafe(w: World, doomed: set<Address>, address: Address)
    requires CountsOk(w) && DoomedSafe(w, doomed) && Enabled(w, Close(address))
    ensures DoomedSafe(Step(w, Close(address)), doomed)
  {
    hide Depends, LoadedAt, CountsOk, RootsSafe;
    CloseRoots(w, doomed, address);
    assert Staying(Step(w, Close(address)), doomed) == Staying(w, doomed);
  }

  lemma LoadRoots(w: World, doomed: set<Address>, images: seq<LoadedImage>, top: LoadedImage)
    requires CountsOk(w) && RootsSafe(w, doomed) && Enabled(w, Load(images, top))
    ensures RootsSafe(Step(w, Load(images, top)), doomed)
  {
    hide LoadedAt, Root, Incremented;
    var r := Step(w, Load(images, top));
    var stay := Staying(r, doomed);
    LoadedAddressesNew(w, images, doomed);
    assert forall li :: li in images && !li.neverUnload ==> li.loadAddress in stay;
    forall li | li in r.loaded && !li.neverUnload && Root(r.counts, li) ensures li.loadAddress in stay {
      if li in w.loaded && li !in images {
        RootsOfLoad(w, images, top, li);
        assert li.loadAddress in Staying(w, doomed);
      }
    }
  }

  lemma LoadSafe(w: World, doomed: set<Address>, images: seq<LoadedImage>, top: LoadedImage)
    requires CountsOk(w) && DoomedSafe(w, doomed) && Enabled(w, Load(images, top))
    ensures DoomedSafe(Step(w, Load(images, top)), doomed) <==> NestedSafe(w, doomed, Load(images, top))
  {
    if NestedSafe(w, doomed, Load(images, top)) {
      LoadKeeps(w, doomed, images, top);
    } else {
      LoadBreaks(w, doomed, images, top);
    }
  }

  /** A loaded image that depends on a doomed one stays while that is removed. */
  lemma LoadBreaks(w: World, doomed: set<Address>, images: seq<LoadedImage>, top: LoadedImage)
    requires CountsOk(w) && DoomedSafe(w, doomed) && Enabled(w, Load(images, top))
    requires !NestedSafe(w, doomed, Load(images, top))
    ensures !DoomedSafe(Step(w, Load(images, top)), doomed)
  {
    hide Depends, LoadedAt, Root, Incremented;
    var r := Step(w, Load(images, top));
    LoadedAddressesNew(w, images, doomed);
    var n, d :| n in images && !n.neverUnload && d in w.loaded && d.loadAddress in doomed && Depends(n, d);
    var u :| u in w.loaded && !u.neverUnload && u.loadAddress == d.loadAddress;
    SameAddress(w.loaded, u, d);
    assert n.loadAddress in Staying(r, doomed) && d.loadAddress !in Staying(r, doomed);
  }

  lemma LoadKeeps(w: World, doomed: set<Address>, images: seq<LoadedImage>, top: LoadedImage)
    requires CountsOk(w) && DoomedSafe(w, doomed) && Enabled(w, Load(images, top))
    requires NestedSafe(w, doomed, Load(images, top))
    ensures DoomedSafe(Step(w, Load(images, top)), doomed)
  {
    hide Depends, LoadedAt, Root, Incremented, HoldsRoots;
    var r := Step(w, Load(images, top));
    var stay := Staying(r, doomed);
    LoadRoots(w, doomed, images, top);
    forall a, b | a in r.loaded && !a.neverUnload && a.loadAddress in stay && b in r.loaded && !b.neverUnload && Depends(a, b)
      ensures b.loadAddress in stay
    {
      LoadedAddressesNew(w, images, doomed);
      if b in w.loaded {
        if a in images {
          assert b.loadAddress !in doomed;
        } else {
          assert a.loadAddress in Staying(w, doomed);
          assert b.loadAddress in Staying(w, doomed);
        }
      }
    }
  }

  /** Newly loaded images sit at addresses no doomed image has. */
  lemma LoadedAddressesNew(w: World, images: seq<LoadedImage>, doomed: set<Address>)
    requires UniqueAddresses(w.loaded + images)
    requires forall x :: x in doomed ==> exists li :: li in w.loaded && !li.neverUnload && li.loadAddress == x
    ensures forall li :: li in images ==> li.loadAddress !in doomed
  {
    var s := w.loaded + images;
    forall li, d | li in images && d in w.loaded ensures li.loadAddress != d.loadAddress {
      var j :| 0 <= j < |w.loaded| && w.loaded[j] == d;
      var k :| 0 <= k < |images| && images[k] == li;
      assert s[j] == d && s[|w.loaded| + k] == li;
    }
  }

  /** Loading makes no old image a root, except one at the very address of the top. */
  lemma RootsOfLoad(w: World, images: seq<LoadedImage>, top: LoadedImage, li: LoadedImage)
    requires CountsOk(w) && Enabled(w, Load(images, top)) && li in w.loaded
    ensures Root(Step(w, Load(images, top)).counts, li) <==> Root(w.counts, li)
  {
    hide LoadedAt;
    var s := w.loaded + images;
    var j :| 0 <= j < |w.loaded| && w.loaded[j] == li;
    var k :| 0 <= k < |images| && images[k] == top;
    assert s[j] == li && s[|w.loaded| + k] == top;
    assert li.loadAddress != top.loadAddress;
    if !top.inDyldCache {
      IncrementedCounts(w.counts, top.loadAddress, li.loadAddress);
      RootIffCount(w.counts, li);
      RootIffCount(Incremented(w.counts, top.loadAddress), li);
    }
  }

  ghost predicate MarkOk(w: World)
  {
    forall i :: 0 <= i < |w.loops| && w.loops[i].Marked? ==> DoomedSafe(w, w.loops[i].doomed)
  }

  ghost predicate RootsMarkOk(w: World)
  {
    forall i :: 0 <= i < |w.loops| && w.loops[i].Marked? ==> RootsSafe(w, w.loops[i].doomed)
  }

  /** The action opens no image that a pass is about to remove. */
  predicate OpensSafe(w: World, a: Action)
  {
    a.Open? ==> forall i :: 0 <= i < |w.loops| && w.loops[i].Marked? ==> a.address !in w.loops[i].doomed
  }

  lemma RootsMarkOkStep(w: World, a: Action)
    requires CounterOk(w) && CountsOk(w) && RootsMarkOk(w) && Enabled(w, a)
    ensures RootsMarkOk(Step(w, a)) <==> OpensSafe(w, a)
  {
    hide RootsSafe, CountsOk;
    assert UniqueAddresses(w.loaded) by { UniqueOf(w); }
    var r := Step(w, a);
    match a {
      case Load(images, top) =>
        if r.loops != [] && r.loops[0].Marked? { LoadRoots(w, r.loops[0].doomed, images, top); }
      case Open(address) =>
        if r.loops != [] && r.loops[0].Marked? { OpenRoots(w, r.loops[0].doomed, address); }
      case Close(address) =>
        if r.loops != [] && r.loops[0].Marked? { CloseRoots(w, r.loops[0].doomed, address); }
      case Request =>
        if r.loops != [] && r.loops[0].Marked? { SameRoots(w, r, r.loops[0].doomed); }
      case Mark(i) =>
        MarkSafe(w);
        SafeRoots(w, Dead(w.loaded, w.counts));
        SameRoots(w, r, Dead(w.loaded, w.counts));
      case Remove(i) =>
      case Decrement(i) =>
    }
  }

  lemma SafeRoots(w: World, doomed: set<Address>)
    requires DoomedSafe(w, doomed)
    ensures RootsSafe(w, doomed)
  {
  }

  lemma SameRoots(w: World, r: World, doomed: set<Address>)
    requires RootsSafe(w, doomed) && r.loaded == w.loaded && r.counts == w.counts
    ensures RootsSafe(r, doomed)
  {
    assert Staying(r, doomed) == Staying(w, doomed);
  }

  predicate ActionSafe(w: World, a: Action)
  {
    forall i :: 0 <= i < |w.loops| && w.loops[i].Marked? ==> NestedSafe(w, w.loops[i].doomed, a)
  }

  /** A step keeps the marks of a pass right exactly when it leaves the doomed images alone. */
  lemma MarkOkStep(w: World, a: Action)
    requires CounterOk(w) && CountsOk(w) && MarkOk(w) && Enabled(w, a)
    ensures MarkOk(Step(w, a)) <==> ActionSafe(w, a)
  {
    hide DoomedSafe, CountsOk;
    assert UniqueAddresses(w.loaded) by { assert CountsOk(w); UniqueOf(w); }
    var r := Step(w, a);
    match a {
      case Load(images, top) =>
        if r.loops != [] && r.loops[0].Marked? { LoadSafe(w, r.loops[0].doomed, images, top); }
      case Open(address) =>
        if r.loops != [] && r.loops[0].Marked? { OpenSafe(w, r.loops[0].doomed, address); }
      case Close(address) =>
        if r.loops != [] && r.loops[0].Marked? { CloseSafe(w, r.loops[0].doomed, address); }
      case Request =>
        if r.loops != [] && r.loops[0].Marked? { SameLists(w, r, r.loops[0].doomed); }
      case Mark(i) =>
        MarkSafe(w);
        SameLists(w, r, Dead(w.loaded, w.counts));
      case Remove(i) =>
      case Decrement(i) =>
    }
  }

  lemma UniqueOf(w: World)
    requires CountsOk(w)
    ensures UniqueAddresses(w.loaded)
  {
  }

  lemma SameLists(w: World, r: World, doomed: set<Address>)
    requires DoomedSafe(w, doomed) && r.loaded == w.loaded && r.counts == w.counts
    ensures DoomedSafe(r, doomed)
  {
    assert Staying(r, doomed) == Staying(w, doomed);
  }

  // ----- completeness of collection -------------------------------------------------------------

  /** Every unloadable image is live or about to be removed. */
  ghost predicate Covered(w: World)
  {
    forall li :: li in w.loaded && !li.neverUnload ==>
      Live(w.loaded, w.counts, li.loadAddress)
      || (w.loops != [] && w.loops[0].Marked? && li.loadAddress in w.loops[0].doomed)
  }

  /** The images a load brings in are live once the top is open. */
  ghost predicate LoadsLive(w: World, a: Action)
    requires Enabled(w, a)
  {
    a.Load? ==> forall li :: li in a.images && !li.neverUnload ==>
      Live(Step(w, a).loaded, Step(w, a).counts, li.loadAddress)
  }

  lemma RootsKept(w: World, a: Action, li: LoadedImage)
    requires CountsOk(w) && Enabled(w, a) && li in w.loaded && Root(w.counts, li)
    requires a.Close? ==> !Decremented(w.counts, a.address).1
    ensures Root(Step(w, a).counts, li)
  {
    hide LoadedAt;
    match a {
      case Load(images, top) => RootsOfLoad(w, images, top, li);
      case Open(address) =>
        IncrementedCounts(w.counts, address, li.loadAddress);
        RootIffCount(w.counts, li);
        RootIffCount(Incremented(w.counts, address), li);
      case Close(address) =>
        DecrementedCounts(w.counts, address, li.loadAddress);
        RootIffCount(w.counts, li);
        RootIffCount(Decremented(w.counts, address).0, li);
      case Request =>
      case Mark(i) =>
      case Remove(i) =>
      case Decrement(i) =>
    }
  }

  /** Removing dead images keeps every live image live. */
  lemma LiveAfterRemoval(w: World, doomed: set<Address>, x: Address)
    requires UniqueAddresses(w.loaded) && DoomedSafe(w, doomed) && Live(w.loaded, w.counts, x)
    ensures Live(Remaining(w.loaded, doomed), w.counts, x)
  {
    hide Root, Depends;
    var kept := Remaining(w.loaded, doomed);
    var stay := Staying(w, doomed);
    forall t: set<Address> | HoldsRoots(kept, w.counts, t) && ClosedUnderDependents(kept, t) ensures x in t {
      var both := t * stay;
      assert forall li :: li in w.loaded && li.loadAddress in stay ==> li in kept;
      assert HoldsRoots(w.loaded, w.counts, both);
      assert ClosedUnderDependents(w.loaded, both);
    }
  }

  ghost predicate Collected(w: World)
  {
    w.erasedSinceMark == 0 ==> Covered(w)
  }

  lemma CollectedStep(w: World, a: Action)
    requires CounterOk(w) && CountsOk(w) && MarkOk(w) && Collected(w)
    requires Enabled(w, a) && LoadsLive(w, a)
    ensures Collected(Step(w, a))
  {
    hide CountsOk, DoomedSafe, Live, Root;
    assert UniqueAddresses(w.loaded) by { UniqueOf(w); }
    var r := Step(w, a);
    if r.erasedSinceMark == 0 {
      forall li | li in r.loaded && !li.neverUnload
        ensures Live(r.loaded, r.counts, li.loadAddress)
             || (r.loops != [] && r.loops[0].Marked? && li.loadAddress in r.loops[0].doomed)
      {
        if a.Mark? {
        } else if a.Remove? {
          assert li in w.loaded && li.loadAddress !in w.loops[0].doomed;
          LiveAfterRemoval(w, w.loops[0].doomed, li.loadAddress);
        } else if li in w.loaded && Live(w.loaded, w.counts, li.loadAddress) {
          forall m | m in w.loaded && Root(w.counts, m) ensures Root(r.counts, m) { RootsKept(w, a, m); }
          LiveGrows(w.loaded, w.counts, r.loaded, r.counts, li.loadAddress);
        }
      }
    }
  }

  // ----- whole runs ---------------------------------------------------------------------------

  /** A fresh process: nothing opened, every loaded image never unloaded, no collection under way. */
  predicate Initial(w: World)
  {
    && UniqueAddresses(w.loaded) && (forall li :: li in w.loaded ==> li.neverUnload)
    && w.counts == [] && w.gcCount == 0 && w.loops == [] && w.pending == 0
    && w.requestsSinceMark == 0 && w.erasedSinceMark == 0
  }

  ghost predicate CanRun(w: World, actions: seq<Action>)
    decreases |actions|, 0
  {
    actions == [] ||
    (CanRun(w, actions[..|actions| - 1]) && Enabled(Run(w, actions[..|actions| - 1]), actions[|actions| - 1]))
  }

  ghost function Run(w: World, actions: seq<Action>): World
    requires CanRun(w, actions)
    decreases |actions|, 1
  {
    if actions == [] then w else Step(Run(w, actions[..|actions| - 1]), actions[|actions| - 1])
  }

  /** No terminator opens a doomed image or loads one that depends on a doomed image. */
  ghost predicate SafelyNested(w: World, actions: seq<Action>)
    requires CanRun(w, actions)
  {
    actions == [] ||
    (SafelyNested(w, actions[..|actions| - 1]) && ActionSafe(Run(w, actions[..|actions| - 1]), actions[|actions| - 1]))
  }

  /** Every load brings in only images its top keeps alive. */
  ghost predicate LoadsOnlyLive(w: World, actions: seq<Action>)
    requires CanRun(w, actions)
  {
    actions == [] ||
    (LoadsOnlyLive(w, actions[..|actions| - 1]) && LoadsLive(Run(w, actions[..|actions| - 1]), actions[|actions| - 1]))
  }

  lemma {:induction false} CounterRun(w: World, actions: seq<Action>)
    requires Initial(w) && CanRun(w, actions)
    ensures CounterOk(Run(w, actions))
  {
    if actions != [] {
      hide CounterOk, Step;
      CounterRun(w, actions[..|actions| - 1]);
      CounterStep(Run(w, actions[..|actions| - 1]), actions[|actions| - 1]);
    }
  }

  lemma CountsStep(w: World, a: Action)
    requires CountsOk(w) && RootsMarkOk(w) && Enabled(w, a)
    ensures CountsOk(Step(w, a))
  {
    match a {
      case Load(images, top) => LoadCounts(w, images, top);
      case Open(address) =>
        var k :| 0 <= k < |w.loaded| && w.loaded[k].loadAddress == address;
        assert LoadedAt(w.loaded, address);
        IncrementedLoaded(w, w.loaded, address);
      case Close(address) => CloseCounts(w, address);
      case Request =>
      case Mark(i) =>
      case Remove(i) => RemoveCounts(w, i);
      case Decrement(i) =>
    }
  }

  lemma InitialOk(w: World)
    requires Initial(w)
    ensures CountsOk(w) && MarkOk(w) && RootsMarkOk(w) && Collected(w)
  {
    assert forall x :: EntryFor(w.counts, x) == 0;
  }

  /** No terminator opens a doomed image; it may load what it likes. */
  ghost predicate OpensNested(w: World, actions: seq<Action>)
    requires CanRun(w, actions)
  {
    actions == [] ||
    (OpensNested(w, actions[..|actions| - 1]) && OpensSafe(Run(w, actions[..|actions| - 1]), actions[|actions| - 1]))
  }

  lemma {:induction false} RootsRun(w: World, actions: seq<Action>)
    requires Initial(w) && CanRun(w, actions) && OpensNested(w, actions)
    ensures CountsOk(Run(w, actions)) && RootsMarkOk(Run(w, actions))
  {
    if actions == [] {
      InitialOk(w);
    } else {
      hide CountsOk, RootsMarkOk, Step, CounterOk, OpensSafe;
      var front, a := actions[..|actions| - 1], actions[|actions| - 1];
      RootsRun(w, front);
      CounterRun(w, front);
      CountsStep(Run(w, front), a);
      RootsMarkOkStep(Run(w, front), a);
    }
  }

  lemma {:induction false} SafelyNestedOpens(w: World, actions: seq<Action>)
    requires CanRun(w, actions) && SafelyNested(w, actions)
    ensures OpensNested(w, actions)
  {
    if actions != [] { SafelyNestedOpens(w, actions[..|actions| - 1]); }
  }

  lemma {:induction false} SafeRun(w: World, actions: seq<Action>)
    requires Initial(w) && CanRun(w, actions) && SafelyNested(w, actions)
    ensures CountsOk(Run(w, actions)) && MarkOk(Run(w, actions))
  {
    if actions == [] {
      InitialOk(w);
    } else {
      hide CountsOk, MarkOk, Step, CounterOk, ActionSafe, OpensNested;
      var front, a := actions[..|actions| - 1], actions[|actions| - 1];
      SafeRun(w, front);
      CounterRun(w, front);
      SafelyNestedOpens(w, actions);
      RootsRun(w, actions);
      MarkOkStep(Run(w, front), a);
    }
  }

  /** At every moment of the run, what a pass is about to remove is safe to remove. */
  ghost predicate MarksStayOk(w: World, actions: seq<Action>)
    requires CanRun(w, actions)
  {
    MarkOk(Run(w, actions)) && (actions == [] || MarksStayOk(w, actions[..|actions| - 1]))
  }

  /** The runs on which every mark stays right are exactly those in which no terminator opens or loads what
      leads to a doomed image. */
  lemma {:induction false} SafelyNestedExactly(w: World, actions: seq<Action>)
    requires Initial(w) && CanRun(w, actions)
    ensures MarksStayOk(w, actions) <==> SafelyNested(w, actions)
  {
    if actions == [] {
      InitialOk(w);
    } else {
      hide CountsOk, MarkOk, Step, CounterOk, ActionSafe;
      var front, a := actions[..|actions| - 1], actions[|actions| - 1];
      SafelyNestedExactly(w, front);
      if SafelyNested(w, front) {
        SafeRun(w, front);
        CounterRun(w, front);
        MarkOkStep(Run(w, front), a);
      }
    }
  }

  lemma {:induction false} CollectedRun(w: World, actions: seq<Action>)
    requires Initial(w) && CanRun(w, actions) && SafelyNested(w, actions) && LoadsOnlyLive(w, actions)
    ensures Collected(Run(w, actions))
  {
    if actions == [] {
      InitialOk(w);
    } else {
      hide CountsOk, MarkOk, Step, CounterOk, ActionSafe, Collected, LoadsLive;
      var front, a := actions[..|actions| - 1], actions[|actions| - 1];
      CollectedRun(w, front);
      SafeRun(w, front);
      CounterRun(w, front);
      CollectedStep(Run(w, front), a);
    }
  }

  // ----- main results --------------------------------------------------------------------------

  /** A removal drops no image that is dlopened or that a dlopened unloadable image reaches
      through unloadable images. */
  lemma RemovalKeepsLive(w: World, actions: seq<Action>, i: nat, li: LoadedImage)
    requires Initial(w) && CanRun(w, actions) && SafelyNested(w, actions)
    requires Enabled(Run(w, actions), Remove(i)) && li in Run(w, actions).loaded
    requires li.neverUnload || Live(Run(w, actions).loaded, Run(w, actions).counts, li.loadAddress)
    ensures li in Step(Run(w, actions), Remove(i)).loaded
  {
    hide Live;
    SafeRun(w, actions);
    var r := Run(w, actions);
    var doomed := r.loops[i].doomed;
    if li.loadAddress in doomed {
      DoomedNotLive(r, doomed, li.loadAddress);
      var d :| d in r.loaded && !d.neverUnload && d.loadAddress == li.loadAddress;
      SameAddress(r.loaded, d, li);
    }
  }

  /** Once the count is back to zero and no closer still has its request to make, every unloadable image
      left is live: the collections that ran missed nothing. */
  lemma NothingLeftOver(w: World, actions: seq<Action>, li: LoadedImage)
    requires Initial(w) && CanRun(w, actions) && SafelyNested(w, actions) && LoadsOnlyLive(w, actions)
    requires var r := Run(w, actions); r.gcCount == 0 && r.pending == 0 && li in r.loaded && !li.neverUnload
    ensures Live(Run(w, actions).loaded, Run(w, actions).counts, li.loadAddress)
  {
    hide Live;
    CounterRun(w, actions);
    CollectedRun(w, actions);
  }

  /** A terminator that opens a doomed image makes the removal that follows drop a dlopened image:
      exactly then. */
  lemma OpeningDoomed(w: World, actions: seq<Action>, address: Address)
    requires Initial(w) && CanRun(w, actions) && SafelyNested(w, actions)
    requires var r := Run(w, actions); r.loops != [] && r.loops[0].Marked? && Enabled(r, Open(address))
    ensures var r := Run(w, actions);
            var s := Step(r, Open(address));
            CountOf(s.counts, address) > 0
            && (LoadedAt(Step(s, Remove(0)).loaded, address) <==> address !in r.loops[0].doomed)
  {
    hide Run, CanRun, Initial, SafelyNested, MarkOk, EntryFor, Remaining;
    SafeRun(w, actions);
    var r := Run(w, actions);
    IncrementedCounts(r.counts, address, address);
    var k :| 0 <= k < |r.loaded| && r.loaded[k].loadAddress == address;
    assert LoadedAt(r.loaded, address);
    StillLoaded(r.loaded, r.loops[0].doomed, address);
  }

  /** Every unloadable image that the loaded ones depend on is still there. */
  ghost predicate DependentsKept(loaded: seq<LoadedImage>, images: seq<LoadedImage>, now: seq<LoadedImage>)
  {
    forall n, d :: n in images && !n.neverUnload && d in loaded && !d.neverUnload && Depends(n, d) ==> d in now
  }

  /** A terminator that loads images which depend on a doomed one makes the removal that follows drop what
      they depend on: exactly then. The loaded images themselves stay. */
  lemma LoadingDoomed(w: World, actions: seq<Action>, images: seq<LoadedImage>, top: LoadedImage)
    requires Initial(w) && CanRun(w, actions) && SafelyNested(w, actions)
    requires var r := Run(w, actions); r.loops != [] && r.loops[0].Marked? && Enabled(r, Load(images, top))
    ensures var r := Run(w, actions);
            var now := Step(Step(r, Load(images, top)), Remove(0)).loaded;
            && (forall n :: n in images ==> n in now)
            && (DependentsKept(r.loaded, images, now) <==> NestedSafe(r, r.loops[0].doomed, Load(images, top)))
  {
    hide Run, CanRun, Initial, SafelyNested, Depends, CountOf;
    SafeRun(w, actions);
    var r := Run(w, actions);
    var doomed := r.loops[0].doomed;
    assert DoomedSafe(r, doomed) && UniqueAddresses(r.loaded);
    LoadedAddressesNew(r, images, doomed);
    var s := Step(r, Load(images, top));
    assert s.loaded == r.loaded + images && s.loops == r.loops;
    assert forall d :: d in r.loaded && d.loadAddress in doomed ==> !d.neverUnload by {
      forall d | d in r.loaded && d.loadAddress in doomed ensures !d.neverUnload {
        var u :| u in r.loaded && !u.neverUnload && u.loadAddress == d.loadAddress;
        SameAddress(r.loaded, u, d);
      }
    }
  }

  /** Then a live image is dropped: the top keeps alive what it depends on, and the removal drops it. */
  lemma LoadedTopLosesDependent(w: World, actions: seq<Action>, images: seq<LoadedImage>, top: LoadedImage, d: LoadedImage)
    requires Initial(w) && CanRun(w, actions) && SafelyNested(w, actions)
    requires var r := Run(w, actions);
             && r.loops != [] && r.loops[0].Marked? && Enabled(r, Load(images, top))
             && d in r.loaded && d.loadAddress in r.loops[0].doomed
    requires !top.neverUnload && !top.inDyldCache && Depends(top, d)
    ensures var s := Step(Run(w, actions), Load(images, top));
            && Live(s.loaded, s.counts, d.loadAddress)
            && d !in Step(s, Remove(0)).loaded
  {
    hide Run, CanRun, Initial, SafelyNested, Depends, Root, Live;
    SafeRun(w, actions);
    var r := Run(w, actions);
    var doomed := r.loops[0].doomed;
    var s := Step(r, Load(images, top));
    var u :| u in r.loaded && !u.neverUnload && u.loadAddress == d.loadAddress;
    SameAddress(r.loaded, u, d);
    IncrementedCounts(r.counts, top.loadAddress, top.loadAddress);
    RootIffCount(s.counts, top);
    RootsLive(s.loaded, s.counts, top);
    DependentsLive(s.loaded, s.counts, top, d);
  }
}
