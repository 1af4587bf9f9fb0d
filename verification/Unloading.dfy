/** The loaded-image list, dlopen reference counts, and which unloadable images are still live. */
module Unloading {
  import opened Wrappers
  import opened ImageGraph
  import opened ImageLookup
  import opened Selection

  type Address = nat

  datatype LoadedImage = LoadedImage(
    loadAddress: Address, imageNum: ImageNum, overrideOf: Option<ImageNum>,
    neverUnload: bool, inDyldCache: bool, dependents: seq<LinkedImage>)

  datatype DlopenCount = DlopenCount(loadAddress: Address, refCount: nat)

  function Key(li: LoadedImage): ImageKey { ImageKey(li.imageNum, li.overrideOf) }

  /** Some reported dependent of `a`, of any link kind, is represented by `b`. */
  predicate Depends(a: LoadedImage, b: LoadedImage)
  {
    exists k :: 0 <= k < |a.dependents| && Reported(a.dependents[k]) && Represents(Key(b), a.dependents[k].imageNum)
  }

  predicate UniqueAddresses(images: seq<LoadedImage>)
  {
    forall j, k :: 0 <= j < k < |images| ==> images[j].loadAddress != images[k].loadAddress
  }

  // ----- reference counts ---------------------------------------------------------------------

  /** The first entry for an address; the length when there is none. */
  function EntryFor(counts: seq<DlopenCount>, address: Address): (k: nat)
    ensures k <= |counts| && (k < |counts| ==> counts[k].loadAddress == address)
    ensures forall j :: 0 <= j < k ==> counts[j].loadAddress != address
  {
    if counts == [] || counts[0].loadAddress == address then 0 else 1 + EntryFor(counts[1..], address)
  }

  function CountOf(counts: seq<DlopenCount>, address: Address): nat
  {
    var k := EntryFor(counts, address);
    if k < |counts| then counts[k].refCount else 0
  }

  /** One entry per address, all counts positive. */
  predicate ValidCounts(counts: seq<DlopenCount>)
  {
    && (forall k :: 0 <= k < |counts| ==> counts[k].refCount > 0)
    && (forall j, k :: 0 <= j < k < |counts| ==> counts[j].loadAddress != counts[k].loadAddress)
  }

  function Incremented(counts: seq<DlopenCount>, address: Address): seq<DlopenCount>
  {
    var k := EntryFor(counts, address);
    if k < |counts| then counts[k := counts[k].(refCount := counts[k].refCount + 1)]
    else counts + [DlopenCount(address, 1)]
  }

  /** The new entries, and whether the count reached zero so that a collection is due. */
  function Decremented(counts: seq<DlopenCount>, address: Address): (r: (seq<DlopenCount>, bool))
    requires ValidCounts(counts)
  {
    var k := EntryFor(counts, address);
    if k == |counts| then (counts, false)
    else if counts[k].refCount == 1 then (counts[..k] + counts[k + 1..], true)
    else (counts[k := counts[k].(refCount := counts[k].refCount - 1)], false)
  }

  lemma EntryUnique(counts: seq<DlopenCount>, k: nat)
    requires ValidCounts(counts) && k < |counts|
    ensures EntryFor(counts, counts[k].loadAddress) == k
  {
    var j := EntryFor(counts, counts[k].loadAddress);
    assert j <= k;
  }

  lemma CountWhenAbsent(counts: seq<DlopenCount>, address: Address)
    requires forall k :: 0 <= k < |counts| ==> counts[k].loadAddress != address
    ensures CountOf(counts, address) == 0
  {
    assert EntryFor(counts, address) == |counts|;
  }

  /** An open adds one to the count of its address and touches no other. */
  lemma IncrementedCounts(counts: seq<DlopenCount>, address: Address, other: Address)
    requires ValidCounts(counts)
    ensures ValidCounts(Incremented(counts, address))
    ensures CountOf(Incremented(counts, address), other) == CountOf(counts, other) + if other == address then 1 else 0
  {
    var r, k := Incremented(counts, address), EntryFor(counts, address);
    if other == address {
      EntryUnique(r, k);
    } else {
      forall e: DlopenCount | e.loadAddress != address ensures e in counts <==> e in r {
        if e in counts {
          var j :| 0 <= j < |counts| && counts[j] == e;
          assert r[j] == e;
        }
      }
      SameOtherEntry(counts, r, address, other);
    }
  }

  lemma ErasedEntry(counts: seq<DlopenCount>, k: nat, other: Address)
    requires ValidCounts(counts) && k < |counts|
    ensures var r := counts[..k] + counts[k + 1..];
            ValidCounts(r) && CountOf(r, other) == if other == counts[k].loadAddress then 0 else CountOf(counts, other)
  {
    hide EntryFor;
    var r := counts[..k] + counts[k + 1..];
    assert forall j :: 0 <= j < |r| ==> r[j] == if j < k then counts[j] else counts[j + 1];
    if other == counts[k].loadAddress {
      CountWhenAbsent(r, other);
    } else {
      forall e: DlopenCount | e.loadAddress != counts[k].loadAddress ensures e in counts <==> e in r {
        if e in counts {
          var j :| 0 <= j < |counts| && counts[j] == e;
          assert r[if j < k then j else j - 1] == e;
        }
      }
      SameOtherEntry(counts, r, counts[k].loadAddress, other);
    }
  }

  lemma UpdatedEntry(counts: seq<DlopenCount>, k: nat, count: nat, other: Address)
    requires ValidCounts(counts) && k < |counts| && count > 0
    ensures var r := counts[k := counts[k].(refCount := count)];
            ValidCounts(r) && CountOf(r, other) == if other == counts[k].loadAddress then count else CountOf(counts, other)
  {
    var r := counts[k := counts[k].(refCount := count)];
    if other == counts[k].loadAddress {
      EntryUnique(r, k);
    } else {
      forall e: DlopenCount | e.loadAddress != counts[k].loadAddress ensures e in counts <==> e in r {
        if e in counts {
          var j :| 0 <= j < |counts| && counts[j] == e;
          assert r[j] == e;
        }
      }
      SameOtherEntry(counts, r, counts[k].loadAddress, other);
    }
  }

  /** A close takes one from the count of its address, if it has one, and touches no other;
      a collection is due exactly when the last reference went. */
  lemma DecrementedCounts(counts: seq<DlopenCount>, address: Address, other: Address)
    requires ValidCounts(counts)
    ensures ValidCounts(Decremented(counts, address).0)
    ensures CountOf(Decremented(counts, address).0, other)
         == if other == address && CountOf(counts, other) > 0 then CountOf(counts, other) - 1 else CountOf(counts, other)
    ensures Decremented(counts, address).1 <==> CountOf(counts, address) == 1
  {
    hide ValidCounts;
    var k := EntryFor(counts, address);
    if k < |counts| && counts[k].refCount == 1 {
      ErasedEntry(counts, k, other);
    } else if k < |counts| {
      PositiveCount(counts, k);
      UpdatedEntry(counts, k, counts[k].refCount - 1, other);
    }
  }

  lemma PositiveCount(counts: seq<DlopenCount>, k: nat)
    requires ValidCounts(counts) && k < |counts|
    ensures counts[k].refCount > 0
  {
  }

  /** Editing only the entries of one address leaves the count of every other address alone. */
  lemma SameOtherEntry(counts: seq<DlopenCount>, r: seq<DlopenCount>, address: Address, other: Address)
    requires ValidCounts(counts) && ValidCounts(r) && other != address
    requires forall e: DlopenCount :: e.loadAddress != address ==> (e in counts <==> e in r)
    ensures CountOf(r, other) == CountOf(counts, other)
  {
    var j, k := EntryFor(counts, other), EntryFor(r, other);
    if j < |counts| { assert counts[j] in r; }
    if k < |r| { assert r[k] in counts; }
  }

  // ----- liveness -----------------------------------------------------------------------------

  function Unloadables(loaded: seq<LoadedImage>): (s: seq<LoadedImage>)
    ensures forall li :: li in s <==> li in loaded && !li.neverUnload
    ensures UniqueAddresses(loaded) ==> UniqueAddresses(s)
  {
    if loaded == [] then [] else
    var rest := Unloadables(loaded[1..]);
    assert loaded == [loaded[0]] + loaded[1..];
    assert UniqueAddresses(loaded) ==> UniqueAddresses(loaded[1..]);
    if loaded[0].neverUnload then rest else [loaded[0]] + rest
  }

  /** The image has been dlopened more often than closed. */
  predicate Root(counts: seq<DlopenCount>, li: LoadedImage)
  {
    exists k :: 0 <= k < |counts| && counts[k].loadAddress == li.loadAddress && counts[k].refCount != 0
  }

  ghost predicate HoldsRoots(loaded: seq<LoadedImage>, counts: seq<DlopenCount>, t: set<Address>)
  {
    forall li :: li in loaded && !li.neverUnload && Root(counts, li) ==> li.loadAddress in t
  }

  /** Closed under dependents, among the unloadable loaded images. */
  ghost predicate ClosedUnderDependents(loaded: seq<LoadedImage>, t: set<Address>)
  {
    forall a, b :: a in loaded && !a.neverUnload && a.loadAddress in t && b in loaded && !b.neverUnload && Depends(a, b) ==>
      b.loadAddress in t
  }

  /** In the least set holding the dlopened unloadable images and closed under dependents. */
  ghost predicate Live(loaded: seq<LoadedImage>, counts: seq<DlopenCount>, x: Address)
  {
    forall t: set<Address> :: HoldsRoots(loaded, counts, t) && ClosedUnderDependents(loaded, t) ==> x in t
  }

  lemma RootsLive(loaded: seq<LoadedImage>, counts: seq<DlopenCount>, li: LoadedImage)
    requires li in loaded && !li.neverUnload && Root(counts, li)
    ensures Live(loaded, counts, li.loadAddress)
  {
  }

  lemma DependentsLive(loaded: seq<LoadedImage>, counts: seq<DlopenCount>, a: LoadedImage, b: LoadedImage)
    requires a in loaded && !a.neverUnload && b in loaded && !b.neverUnload && Depends(a, b)
    requires Live(loaded, counts, a.loadAddress)
    ensures Live(loaded, counts, b.loadAddress)
  {
    forall t: set<Address> | HoldsRoots(loaded, counts, t) && ClosedUnderDependents(loaded, t) ensures b.loadAddress in t {
      assert a.loadAddress in t;
    }
  }

  /** More images and more roots keep every live image live. */
  lemma LiveGrows(loaded: seq<LoadedImage>, counts: seq<DlopenCount>, loaded': seq<LoadedImage>, counts': seq<DlopenCount>, x: Address)
    requires forall li :: li in loaded ==> li in loaded'
    requires forall li :: li in loaded && Root(counts, li) ==> Root(counts', li)
    requires Live(loaded, counts, x)
    ensures Live(loaded', counts', x)
  {
    forall t: set<Address> | HoldsRoots(loaded', counts', t) && ClosedUnderDependents(loaded', t) ensures x in t {
      assert HoldsRoots(loaded, counts, t);
      assert ClosedUnderDependents(loaded, t);
    }
  }

  lemma RootIffCount(counts: seq<DlopenCount>, li: LoadedImage)
    requires ValidCounts(counts)
    ensures Root(counts, li) <==> CountOf(counts, li.loadAddress) > 0
  {
    if Root(counts, li) {
      var k :| 0 <= k < |counts| && counts[k].loadAddress == li.loadAddress && counts[k].refCount != 0;
      EntryUnique(counts, k);
    }
  }

  // ----- removal ------------------------------------------------------------------------------

  /** The images that stay when the doomed addresses are removed. */
  function Remaining(loaded: seq<LoadedImage>, doomed: set<Address>): (s: seq<LoadedImage>)
    ensures forall li :: li in s <==> li in loaded && li.loadAddress !in doomed
    ensures UniqueAddresses(loaded) ==> UniqueAddresses(s)
  {
    if loaded == [] then [] else
    var rest := Remaining(loaded[1..], doomed);
    assert loaded == [loaded[0]] + loaded[1..];
    assert UniqueAddresses(loaded) ==> UniqueAddresses(loaded[1..]);
    if loaded[0].loadAddress in doomed then rest else [loaded[0]] + rest
  }

  function Stays(loaded: seq<LoadedImage>, doomed: set<Address>): (keep: seq<bool>)
    ensures |keep| == |loaded| && forall k :: 0 <= k < |keep| ==> (keep[k] <==> loaded[k].loadAddress !in doomed)
  {
    seq(|loaded|, k requires 0 <= k < |loaded| => loaded[k].loadAddress !in doomed)
  }

  /** The images that stay are the ones not doomed, in their old order. */
  lemma {:induction false} RemainingPlaces(loaded: seq<LoadedImage>, doomed: set<Address>) returns (at: seq<nat>)
    ensures TakenFrom(loaded, Remaining(loaded, doomed), at) && Flagged(Stays(loaded, doomed), at)
  {
    if loaded == [] {
      at := [];
    } else {
      hide TakenFrom, Flagged, Remaining, Stays, UniqueAddresses;
      var li, rest := loaded[0], loaded[1..];
      at := RemainingPlaces(rest, doomed);
      TakeOneBefore(rest, Remaining(rest, doomed), at, li, Stays(rest, doomed));
      assert [li] + rest == loaded;
      RemainingFirst(loaded, doomed);
      StaysFirst(loaded, doomed);
      at := if li.loadAddress in doomed then MovedUp(at) else [0] + MovedUp(at);
    }
  }

  lemma RemainingFirst(loaded: seq<LoadedImage>, doomed: set<Address>)
    requires loaded != []
    ensures Remaining(loaded, doomed) ==
              if loaded[0].loadAddress in doomed then Remaining(loaded[1..], doomed)
              else [loaded[0]] + Remaining(loaded[1..], doomed)
  {
    hide UniqueAddresses;
  }

  lemma StaysFirst(loaded: seq<LoadedImage>, doomed: set<Address>)
    requires loaded != []
    ensures Stays(loaded, doomed) == [loaded[0].loadAddress !in doomed] + Stays(loaded[1..], doomed)
  {
  }

  /** Unloadable images that are not live. */
  ghost function Dead(loaded: seq<LoadedImage>, counts: seq<DlopenCount>): set<Address>
  {
    set li | li in loaded && !li.neverUnload && !Live(loaded, counts, li.loadAddress) :: li.loadAddress
  }
}
