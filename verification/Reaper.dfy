/** The mark phase over the unloadable images, and one collection pass. */
module Reaper {
  import opened Wrappers
  import opened ImageGraph
  import opened ImageLookup
  import opened Unloading

  function Count(flags: seq<bool>): (n: nat)
    ensures n <= |flags|
  {
    if flags == [] then 0 else Count(flags[..|flags| - 1]) + if flags[|flags| - 1] then 1 else 0
  }

  predicate Grows(a: seq<bool>, b: seq<bool>)
  {
    |a| == |b| && forall k :: 0 <= k < |a| && a[k] ==> b[k]
  }

  /** Setting flags raises the count, and an unchanged count means unchanged flags. */
  lemma {:induction false} CountGrows(a: seq<bool>, b: seq<bool>)
    requires Grows(a, b)
    ensures Count(a) <= Count(b) && (Count(a) == Count(b) ==> a == b)
  {
    if a != [] {
      CountGrows(a[..|a| - 1], b[..|b| - 1]);
      assert a == a[..|a| - 1] + [a[|a| - 1]] && b == b[..|b| - 1] + [b[|b| - 1]];
    }
  }

  /** Every dependent of the marked images before position `n` is marked. */
  predicate SweptTo(units: seq<LoadedImage>, flags: seq<bool>, n: nat)
    requires |flags| == |units|
  {
    forall i, j :: 0 <= i < |units| && i < n && flags[i] && 0 <= j < |units| && Depends(units[i], units[j]) ==> flags[j]
  }

  /** Every image a reported link of the list names is marked. */
  predicate LinksMarked(units: seq<LoadedImage>, flags: seq<bool>, deps: seq<LinkedImage>)
    requires |flags| == |units|
  {
    forall k, j :: 0 <= k < |deps| && Reported(deps[k]) && 0 <= j < |units| && Represents(Key(units[j]), deps[k].imageNum) ==>
      flags[j]
  }

  class Collector {
    const unloadables: seq<LoadedImage>
    const inUse: array<bool>
    var deadCount: nat

    ghost predicate Valid()
    {
      inUse.Length == |unloadables| && UniqueAddresses(unloadables)
    }

    constructor (images: seq<LoadedImage>)
      requires UniqueAddresses(images)
      ensures Valid() && unloadables == images && fresh(inUse)
      ensures forall i :: 0 <= i < |images| ==> !inUse[i]
    {
      unloadables := images;
      inUse := new bool[|images|](_ => false);
      deadCount := 0;
    }

    /** Marks the first image at the address of each positive count. */
    method MarkDirectlyDlopenedImagesAsUsed(counts: seq<DlopenCount>)
      requires Valid()
      modifies inUse
      ensures forall i :: 0 <= i < |unloadables| ==> (inUse[i] <==> old(inUse[i]) || Root(counts, unloadables[i]))
    {
      for k := 0 to |counts|
        invariant forall i :: 0 <= i < |unloadables| ==> (inUse[i] <==> old(inUse[i]) || Root(counts[..k], unloadables[i]))
      {
        ghost var before := inUse[..];
        if counts[k].refCount != 0 {
          MarkAddress(counts[k].loadAddress);
        }
        forall i | 0 <= i < |unloadables|
          ensures Root(counts[..k + 1], unloadables[i]) <==>
                    Root(counts[..k], unloadables[i])
                    || (counts[k].refCount != 0 && counts[k].loadAddress == unloadables[i].loadAddress)
        {
          RootSnoc(counts, k, unloadables[i]);
        }
      }
      assert counts[..|counts|] == counts;
    }

    method MarkAddress(address: Address)
      requires Valid()
      modifies inUse
      ensures forall i :: 0 <= i < |unloadables| ==>
                (inUse[i] <==> old(inUse[i]) || unloadables[i].loadAddress == address)
    {
      for i := 0 to |unloadables|
        invariant inUse[..] == old(inUse[..])
        invariant forall j :: 0 <= j < i ==> unloadables[j].loadAddress != address
      {
        if unloadables[i].loadAddress == address {
          inUse[i] := true;
          return;
        }
      }
    }

    method InUseCount() returns (count: nat)
      requires Valid()
      ensures count == Count(inUse[..])
    {
      count := 0;
      for i := 0 to |unloadables|
        invariant count == Count(inUse[..i])
      {
        assert inUse[..i + 1][..i] == inUse[..i];
        if inUse[i] { count := count + 1; }
      }
      assert inUse[..inUse.Length] == inUse[..];
    }

    /** For one number, marks the first image representing it that is not marked yet. */
    method MarkNum(num: ImageNum)
      requires Valid()
      modifies inUse
      ensures Grows(old(inUse[..]), inUse[..])
      ensures forall j :: 0 <= j < |unloadables| && inUse[j] && !old(inUse[j]) ==>
                unloadables[j].imageNum == num || unloadables[j].overrideOf == Some(num)
      ensures inUse[..] == old(inUse[..]) ==>
                forall j :: 0 <= j < |unloadables| && (unloadables[j].imageNum == num || unloadables[j].overrideOf == Some(num)) ==>
                  inUse[j]
    {
      for i := 0 to |unloadables|
        invariant inUse[..] == old(inUse[..])
        invariant forall j :: 0 <= j < i && Represents(Key(unloadables[j]), num) ==> inUse[j]
      {
        if !inUse[i] && Represents(Key(unloadables[i]), num) {
          inUse[i] := true;
          assert inUse[..][i] && !old(inUse[..])[i];
          return;
        }
      }
    }

    method MarkDependentsOf(i: nat)
      requires Valid() && i < |unloadables|
      modifies inUse
      ensures Grows(old(inUse[..]), inUse[..])
      ensures forall j :: 0 <= j < |unloadables| && inUse[j] && !old(inUse[j]) ==> Depends(unloadables[i], unloadables[j])
      ensures inUse[..] == old(inUse[..]) ==>
                forall j :: 0 <= j < |unloadables| && Depends(unloadables[i], unloadables[j]) ==> inUse[j]
      ensures forall j :: 0 <= j < |unloadables| && inUse[j] && !old(inUse[j]) ==>
                exists k :: 0 <= k < |unloadables[i].dependents|
                  && !(unloadables[i].dependents[k].imageNum == 0x0FFF_FFFF && unloadables[i].dependents[k].kind == Weak)
                  && (unloadables[j].imageNum == unloadables[i].dependents[k].imageNum
                      || unloadables[j].overrideOf == Some(unloadables[i].dependents[k].imageNum))
      ensures inUse[..] == old(inUse[..]) ==>
                forall j, k :: 0 <= j < |unloadables| && 0 <= k < |unloadables[i].dependents|
                               && !(unloadables[i].dependents[k].imageNum == 0x0FFF_FFFF && unloadables[i].dependents[k].kind == Weak)
                               && (unloadables[j].imageNum == unloadables[i].dependents[k].imageNum
                                   || unloadables[j].overrideOf == Some(unloadables[i].dependents[k].imageNum)) ==>
                  inUse[j]
    {
      var deps := unloadables[i].dependents;
      for k := 0 to |deps|
        invariant Grows(old(inUse[..]), inUse[..])
        invariant forall j :: 0 <= j < |unloadables| && inUse[j] && !old(inUse[j]) ==> Depends(unloadables[i], unloadables[j])
        invariant inUse[..] == old(inUse[..]) ==>
                    LinksMarked(unloadables, inUse[..], deps[..k])
      {
        ghost var before := inUse[..];
        if Reported(deps[k]) {
          MarkNum(deps[k].imageNum);
        }
        if inUse[..] == old(inUse[..]) { assert before == inUse[..] by { SameEnds(old(inUse[..]), before, inUse[..]); } }
      }
    }

    /** One sweep: the dependents of every image marked when the sweep reaches it. */
    method MarkDependentOfInUseImages(ghost loaded: seq<LoadedImage>, ghost counts: seq<DlopenCount>)
      requires Valid() && (forall j :: 0 <= j < |unloadables| ==> unloadables[j] in loaded && !unloadables[j].neverUnload)
      requires forall j :: 0 <= j < |unloadables| && inUse[j] ==> Live(loaded, counts, unloadables[j].loadAddress)
      modifies inUse
      ensures Grows(old(inUse[..]), inUse[..])
      ensures forall j :: 0 <= j < |unloadables| && inUse[j] ==> Live(loaded, counts, unloadables[j].loadAddress)
      ensures inUse[..] == old(inUse[..]) ==>
                SweptTo(unloadables, inUse[..], |unloadables|)
    {
      hide Live, Depends;
      for n := 0 to |unloadables|
        invariant Grows(old(inUse[..]), inUse[..])
        invariant forall j :: 0 <= j < |unloadables| && inUse[j] ==> Live(loaded, counts, unloadables[j].loadAddress)
        invariant inUse[..] == old(inUse[..]) ==>
                    SweptTo(unloadables, inUse[..], n)
      {
        ghost var before := inUse[..];
        if inUse[n] {
          MarkDependentsOf(n);
          forall j | 0 <= j < |unloadables| && inUse[j] ensures Live(loaded, counts, unloadables[j].loadAddress) {
            if !before[j] { DependentsLive(loaded, counts, unloadables[n], unloadables[j]); }
          }
        }
        if inUse[..] == old(inUse[..]) { assert before == inUse[..] by { SameEnds(old(inUse[..]), before, inUse[..]); } }
      }
    }

    /** Marks exactly the live images: roots first, then dependents until a sweep changes nothing. */
    method GarbageCollect(loaded: seq<LoadedImage>, counts: seq<DlopenCount>)
      requires Valid() && unloadables == Unloadables(loaded)
      requires forall i :: 0 <= i < |unloadables| ==> !inUse[i]
      modifies this, inUse
      ensures forall i :: 0 <= i < |unloadables| ==>
                (inUse[i] <==> Live(loaded, counts, unloadables[i].loadAddress))
      ensures deadCount == |unloadables| - Count(inUse[..])
    {
      hide Live, Depends;
      assert forall j :: 0 <= j < |unloadables| ==> unloadables[j] in unloadables;
      MarkDirectlyDlopenedImagesAsUsed(counts);
      forall j | 0 <= j < |unloadables| && inUse[j] ensures Live(loaded, counts, unloadables[j].loadAddress) {
        RootsLive(loaded, counts, unloadables[j]);
      }
      ghost var roots := inUse[..];
      var lastCount := InUseCount();
      var countChanged := true;
      while countChanged
        invariant Grows(roots, inUse[..]) && lastCount == Count(inUse[..])
        invariant forall j :: 0 <= j < |unloadables| && inUse[j] ==> Live(loaded, counts, unloadables[j].loadAddress)
        invariant !countChanged ==>
                    SweptTo(unloadables, inUse[..], |unloadables|)
        decreases |unloadables| - lastCount, countChanged
      {
        ghost var before := inUse[..];
        MarkDependentOfInUseImages(loaded, counts);
        CountGrows(before, inUse[..]);
        var newCount := InUseCount();
        countChanged := newCount != lastCount;
        lastCount := newCount;
      }
      MarkedAreLive(loaded, counts, unloadables, inUse[..]);
      deadCount := |unloadables| - lastCount;
    }

    /** Copies of the images left unmarked. */
    method DeadImages() returns (dead: seq<LoadedImage>)
      requires Valid()
      ensures Addresses(dead) == UnmarkedBelow(unloadables, inUse[..], |unloadables|)
    {
      dead := [];
      for i := 0 to |unloadables|
        invariant Addresses(dead) == UnmarkedBelow(unloadables, inUse[..], i)
      {
        if !inUse[i] {
          AddressesSnoc(dead, unloadables[i]);
          dead := dead + [unloadables[i]];
        }
      }
    }
  }

  /** The addresses of the unmarked images before position `n`. */
  function UnmarkedBelow(units: seq<LoadedImage>, flags: seq<bool>, n: nat): set<Address>
    requires n <= |units| == |flags|
  {
    if n == 0 then {} else UnmarkedBelow(units, flags, n - 1) + if flags[n - 1] then {} else {units[n - 1].loadAddress}
  }

  lemma RootSnoc(counts: seq<DlopenCount>, k: nat, li: LoadedImage)
    requires k < |counts|
    ensures Root(counts[..k + 1], li) <==>
              Root(counts[..k], li) || (counts[k].refCount != 0 && counts[k].loadAddress == li.loadAddress)
  {
    var c := counts[..k + 1];
    if counts[k].refCount != 0 && counts[k].loadAddress == li.loadAddress { assert c[k] == counts[k]; }
    if Root(counts[..k], li) {
      var j :| 0 <= j < k && counts[..k][j].loadAddress == li.loadAddress && counts[..k][j].refCount != 0;
      assert c[j] == counts[..k][j];
    }
    if Root(c, li) {
      var j :| 0 <= j < |c| && c[j].loadAddress == li.loadAddress && c[j].refCount != 0;
      if j < k { assert counts[..k][j] == c[j]; }
    }
  }

  /** Flags that only ever get set are the same throughout if they are the same at both ends. */
  lemma SameEnds(a: seq<bool>, b: seq<bool>, c: seq<bool>)
    requires Grows(a, b) && Grows(b, c) && a == c
    ensures b == c
  {
  }

  /** Marks that hold the roots and are closed under dependents cover every live image. */
  lemma MarkedAreLive(loaded: seq<LoadedImage>, counts: seq<DlopenCount>, units: seq<LoadedImage>, flags: seq<bool>)
    requires units == Unloadables(loaded) && UniqueAddresses(units) && |flags| == |units|
    requires forall i :: 0 <= i < |units| && Root(counts, units[i]) ==> flags[i]
    requires SweptTo(units, flags, |units|)
    ensures forall i :: 0 <= i < |units| && Live(loaded, counts, units[i].loadAddress) ==> flags[i]
  {
    hide Depends, Root;
    var t := set i | 0 <= i < |units| && flags[i] :: units[i].loadAddress;
    assert forall i :: 0 <= i < |units| ==> (units[i].loadAddress in t <==> flags[i]);
    forall li | li in loaded && !li.neverUnload && Root(counts, li) ensures li.loadAddress in t {
      assert li in units;
    }
    forall a, b | a in loaded && !a.neverUnload && b in loaded && !b.neverUnload && a.loadAddress in t && Depends(a, b)
      ensures b.loadAddress in t
    {
      assert a in units && b in units;
      var i :| 0 <= i < |units| && units[i] == a;
      var j :| 0 <= j < |units| && units[j] == b;
    }
    assert HoldsRoots(loaded, counts, t) && ClosedUnderDependents(loaded, t);
  }

  // ----- one pass -----------------------------------------------------------------------------

  class AllImages {
    var loadedImages: seq<LoadedImage>
    var dlopenRefCounts: seq<DlopenCount>
    var gcCount: int

    constructor (images: seq<LoadedImage>)
      ensures loadedImages == images && dlopenRefCounts == [] && gcCount == 0
    {
      loadedImages, dlopenRefCounts, gcCount := images, [], 0;
    }

    method IncRefCount(loadAddress: Address)
      modifies this`dlopenRefCounts
      ensures dlopenRefCounts == Incremented(old(dlopenRefCounts), loadAddress)
    {
      for k := 0 to |dlopenRefCounts|
        invariant dlopenRefCounts == old(dlopenRefCounts)
        invariant k <= EntryFor(dlopenRefCounts, loadAddress)
      {
        if dlopenRefCounts[k].loadAddress == loadAddress {
          dlopenRefCounts := dlopenRefCounts[k := dlopenRefCounts[k].(refCount := dlopenRefCounts[k].refCount + 1)];
          return;
        }
      }
      dlopenRefCounts := dlopenRefCounts + [DlopenCount(loadAddress, 1)];
    }

    /** Drops one reference; the caller collects garbage when told to. */
    method DropReference(loadAddress: Address) returns (doCollect: bool)
      requires ValidCounts(dlopenRefCounts)
      modifies this`dlopenRefCounts
      ensures (dlopenRefCounts, doCollect) == Decremented(old(dlopenRefCounts), loadAddress)
    {
      doCollect := false;
      for k := 0 to |dlopenRefCounts|
        invariant dlopenRefCounts == old(dlopenRefCounts) && !doCollect
        invariant k <= EntryFor(dlopenRefCounts, loadAddress)
      {
        if dlopenRefCounts[k].loadAddress == loadAddress {
          var count := dlopenRefCounts[k].refCount - 1;
          if count == 0 {
            dlopenRefCounts := dlopenRefCounts[..k] + dlopenRefCounts[k + 1..];
            doCollect := true;
          } else {
            dlopenRefCounts := dlopenRefCounts[k := dlopenRefCounts[k].(refCount := count)];
          }
          return;
        }
      }
    }

    method EraseAddress(loadAddress: Address)
      requires UniqueAddresses(loadedImages)
      modifies this`loadedImages
      ensures loadedImages == Remaining(old(loadedImages), {loadAddress})
    {
      for k := 0 to |loadedImages|
        invariant loadedImages == old(loadedImages)
        invariant forall j :: 0 <= j < k ==> loadedImages[j].loadAddress != loadAddress
      {
        if loadedImages[k].loadAddress == loadAddress {
          EraseAt(loadedImages, k);
          loadedImages := loadedImages[..k] + loadedImages[k + 1..];
          return;
        }
      }
      NothingErased(loadedImages, loadAddress);
    }

    /** Erases, for each image to unload, the loaded image at its address. */
    method RemoveImages(unloadImages: seq<LoadedImage>)
      requires UniqueAddresses(loadedImages)
      modifies this`loadedImages
      ensures loadedImages == Remaining(old(loadedImages), Addresses(unloadImages))
    {
      RemainingAll(loadedImages);
      assert Addresses(unloadImages[..0]) == {};
      for n := 0 to |unloadImages|
        invariant UniqueAddresses(loadedImages)
        invariant loadedImages == Remaining(old(loadedImages), Addresses(unloadImages[..n]))
      {
        EraseAddress(unloadImages[n].loadAddress);
        RemainingTwice(old(loadedImages), Addresses(unloadImages[..n]), {unloadImages[n].loadAddress});
        assert unloadImages[..n + 1] == unloadImages[..n] + [unloadImages[n]];
        AddressesSnoc(unloadImages[..n], unloadImages[n]);
      }
      assert unloadImages[..|unloadImages|] == unloadImages;
    }

    /** One pass of the collection loop, with terminators that call back into nothing. */
    method CollectPass()
      requires UniqueAddresses(loadedImages)
      modifies this`loadedImages
      ensures loadedImages == Remaining(old(loadedImages), Dead(old(loadedImages), dlopenRefCounts))
    {
      hide Live;
      var unloadables: seq<LoadedImage> := Unloadables(loadedImages);
      var reaper := new Collector(unloadables);
      reaper.GarbageCollect(loadedImages, dlopenRefCounts);
      ghost var flags := reaper.inUse[..];
      var unloadImages := reaper.DeadImages();
      UnmarkedAreDead(loadedImages, dlopenRefCounts, unloadables, flags);
      RemoveImages(unloadImages);
    }

    /** Collects garbage unless a collection is under way, which then runs once more on this request's
        behalf. Between the two changes of the counter nothing else runs here. */
    method GarbageCollectImages()
      requires UniqueAddresses(loadedImages) && gcCount >= 0
      modifies this`loadedImages, this`gcCount
      ensures old(gcCount) > 0 ==> gcCount == old(gcCount) + 1 && loadedImages == old(loadedImages)
      ensures old(gcCount) == 0 ==>
                gcCount == 0 && loadedImages == Remaining(old(loadedImages), Dead(old(loadedImages), dlopenRefCounts))
    {
      gcCount := gcCount + 1;
      var newCount := gcCount;
      if newCount != 1 { return; }
      while newCount > 0
        invariant newCount == gcCount && 0 <= newCount <= 1
        invariant newCount == 1 ==> loadedImages == old(loadedImages)
        invariant newCount == 0 ==>
                    loadedImages == Remaining(old(loadedImages), Dead(old(loadedImages), dlopenRefCounts))
      {
        CollectPass();
        gcCount := gcCount - 1;
        newCount := gcCount;
      }
    }

    /** Drops one reference and, when it was the last, removes every image that is no longer live. */
    method DecRefCount(loadAddress: Address)
      requires UniqueAddresses(loadedImages) && ValidCounts(dlopenRefCounts) && gcCount == 0
      modifies this
      ensures gcCount == 0 && dlopenRefCounts == Decremented(old(dlopenRefCounts), loadAddress).0
      ensures loadedImages == if Decremented(old(dlopenRefCounts), loadAddress).1
                              then Remaining(old(loadedImages), Dead(old(loadedImages), dlopenRefCounts))
                              else old(loadedImages)
    {
      var doCollect := DropReference(loadAddress);
      if doCollect {
        GarbageCollectImages();
      }
    }
  }

  lemma {:induction false} UnmarkedAre(units: seq<LoadedImage>, flags: seq<bool>, n: nat, a: Address)
    requires n <= |units| == |flags|
    ensures a in UnmarkedBelow(units, flags, n) <==> exists j :: 0 <= j < n && !flags[j] && units[j].loadAddress == a
  {
    if n > 0 {
      UnmarkedAre(units, flags, n - 1, a);
      assert !flags[n - 1] && units[n - 1].loadAddress == a ==> exists j :: 0 <= j < n && !flags[j] && units[j].loadAddress == a;
    }
  }

  lemma UnmarkedAreDead(loaded: seq<LoadedImage>, counts: seq<DlopenCount>, units: seq<LoadedImage>, flags: seq<bool>)
    requires units == Unloadables(loaded) && |flags| == |units|
    requires forall i :: 0 <= i < |units| ==> (flags[i] <==> Live(loaded, counts, units[i].loadAddress))
    ensures UnmarkedBelow(units, flags, |units|) == Dead(loaded, counts)
  {
    hide Live;
    forall a ensures a in UnmarkedBelow(units, flags, |units|) <==> a in Dead(loaded, counts) {
      UnmarkedAre(units, flags, |units|, a);
      if a in Dead(loaded, counts) {
        var li :| li in loaded && !li.neverUnload && !Live(loaded, counts, li.loadAddress) && li.loadAddress == a;
        assert li in units;
      }
      assert forall j :: 0 <= j < |units| ==> units[j] in units;
    }
  }

  lemma AddressesSnoc(images: seq<LoadedImage>, li: LoadedImage)
    ensures Addresses(images + [li]) == Addresses(images) + {li.loadAddress}
  {
    var s := images + [li];
    assert s[|images|] == li && forall k :: 0 <= k < |images| ==> s[k] == images[k];
  }

  function Addresses(images: seq<LoadedImage>): set<Address>
  {
    set k | 0 <= k < |images| :: images[k].loadAddress
  }

  lemma {:induction false} RemainingAll(loaded: seq<LoadedImage>)
    ensures Remaining(loaded, {}) == loaded
  {
    if loaded != [] { RemainingAll(loaded[1..]); }
  }

  lemma {:induction false} RemainingTwice(loaded: seq<LoadedImage>, a: set<Address>, b: set<Address>)
    ensures Remaining(Remaining(loaded, a), b) == Remaining(loaded, a + b)
  {
    if loaded != [] {
      RemainingTwice(loaded[1..], a, b);
      var rest := Remaining(loaded[1..], a);
      if loaded[0].loadAddress !in a {
        assert ([loaded[0]] + rest)[1..] == rest;
      }
    }
  }

  /** Erasing the one image at an address is removing that address. */
  lemma {:induction false} EraseAt(before: seq<LoadedImage>, k: nat)
    requires UniqueAddresses(before) && k < |before|
    ensures Remaining(before, {before[k].loadAddress}) == before[..k] + before[k + 1..]
  {
    hide Remaining, UniqueAddresses;
    var rest := before[1..];
    UniqueRest(before);
    RemainingFirst(before, {before[k].loadAddress});
    if k == 0 {
      NothingErased(rest, before[0].loadAddress);
    } else {
      EraseAt(rest, k - 1);
      Splice(before, k);
    }
  }

  lemma UniqueRest(images: seq<LoadedImage>)
    requires UniqueAddresses(images) && images != []
    ensures UniqueAddresses(images[1..])
    ensures forall j :: 0 < j < |images| ==> images[j].loadAddress != images[0].loadAddress
  {
  }

  lemma Splice<T>(s: seq<T>, k: nat)
    requires 0 < k < |s|
    ensures [s[0]] + (s[1..][..k - 1] + s[1..][k..]) == s[..k] + s[k + 1..] && s[1..][k - 1] == s[k]
  {
  }

  lemma {:induction false} NothingErased(loaded: seq<LoadedImage>, address: Address)
    requires forall j :: 0 <= j < |loaded| ==> loaded[j].loadAddress != address
    ensures Remaining(loaded, {address}) == loaded
  {
    if loaded != [] { NothingErased(loaded[1..], address); }
  }
}
