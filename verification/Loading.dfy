/** Loading the dependents of a top image with a worklist, and the index cache in front of image lookup. */
module Loading {
  import opened Wrappers
  import opened ImageGraph
  import opened ImageLookup

  const FIRST_LAUNCH_CLOSURE_IMAGE_NUM: ImageNum := 0x2000

  datatype Image = Image(imageNum: ImageNum, overrideOf: Option<ImageNum>, dependents: seq<LinkedImage>)

  datatype ImageArray = ImageArray(firstImageNum: ImageNum, hasRoots: bool, images: seq<Image>)

  /** Without roots the i-th image has the i-th number. */
  predicate WellFormed(a: ImageArray)
  {
    !a.hasRoots ==> forall i :: 0 <= i < |a.images| ==> a.images[i].imageNum == a.firstImageNum + i
  }

  function ScanForNum(images: seq<Image>, num: ImageNum): (r: Option<Image>)
    ensures r.Some? ==> r.value in images && r.value.imageNum == num
    ensures r.None? ==> forall i :: 0 <= i < |images| ==> images[i].imageNum != num
  {
    if images == [] then None else if images[0].imageNum == num then Some(images[0]) else ScanForNum(images[1..], num)
  }

  /** Arrays with roots are scanned; in others the number is the position. */
  function ImageForNum(a: ImageArray, num: ImageNum): (r: Option<Image>)
    ensures WellFormed(a) && r.Some? ==> r.value in a.images && r.value.imageNum == num
    ensures WellFormed(a) && r.None? ==> forall i :: 0 <= i < |a.images| ==> a.images[i].imageNum != num
  {
    if a.hasRoots then ScanForNum(a.images, num)
    else if num < a.firstImageNum || num - a.firstImageNum >= |a.images| then None
    else Some(a.images[num - a.firstImageNum])
  }

  /** Later arrays take precedence. */
  function FindImage(arrays: seq<ImageArray>, num: ImageNum): (r: Option<Image>)
    ensures (forall a :: a in arrays ==> WellFormed(a)) && r.Some? ==> r.value.imageNum == num
  {
    if arrays == [] then None else
    var last := ImageForNum(arrays[|arrays| - 1], num);
    assert arrays[|arrays| - 1] in arrays;
    if last.Some? then last else FindImage(arrays[..|arrays| - 1], num)
  }

  predicate HoldsNum(a: ImageArray, num: ImageNum)
  {
    exists i :: 0 <= i < |a.images| && a.images[i].imageNum == num
  }

  /** The first image of the array with the number. */
  predicate IsFirst(a: ImageArray, num: ImageNum, i: nat)
  {
    i < |a.images| && a.images[i].imageNum == num && forall j :: 0 <= j < i ==> a.images[j].imageNum != num
  }

  lemma {:induction false} ScanFirst(images: seq<Image>, num: ImageNum)
    ensures ScanForNum(images, num).Some? ==>
              exists i: nat :: i < |images| && ScanForNum(images, num) == Some(images[i]) && images[i].imageNum == num
                               && forall j :: 0 <= j < i ==> images[j].imageNum != num
  {
    if images != [] && images[0].imageNum != num && ScanForNum(images, num).Some? {
      ScanFirst(images[1..], num);
      var i: nat :| i < |images[1..]| && ScanForNum(images[1..], num) == Some(images[1..][i])
                    && forall j :: 0 <= j < i ==> images[1..][j].imageNum != num;
      assert forall j :: 0 < j < i + 1 ==> images[j] == images[1..][j - 1];
      assert images[i + 1] == images[1..][i];
    }
  }

  lemma ImageForNumFirst(a: ImageArray, num: ImageNum)
    requires WellFormed(a)
    ensures ImageForNum(a, num).None? <==> !HoldsNum(a, num)
    ensures ImageForNum(a, num).Some? ==>
              exists i: nat :: IsFirst(a, num, i) && ImageForNum(a, num) == Some(a.images[i])
  {
    if a.hasRoots {
      ScanFirst(a.images, num);
      if ImageForNum(a, num).Some? {
        var i: nat :| i < |a.images| && ImageForNum(a, num) == Some(a.images[i]) && a.images[i].imageNum == num
                      && forall j :: 0 <= j < i ==> a.images[j].imageNum != num;
        assert IsFirst(a, num, i);
      }
    } else if ImageForNum(a, num).Some? {
      assert IsFirst(a, num, num - a.firstImageNum);
    }
  }

  /** The image is the first with the number in array `k`, and no later array holds the number. */
  predicate TakenFrom(arrays: seq<ImageArray>, num: ImageNum, image: Image, k: nat, i: nat)
  {
    && k < |arrays| && IsFirst(arrays[k], num, i) && image == arrays[k].images[i]
    && forall j :: k < j < |arrays| ==> !HoldsNum(arrays[j], num)
  }

  /** The last array that holds the number gives the image, the first in it; without one there is none. */
  lemma {:induction false} FindImageExactly(arrays: seq<ImageArray>, num: ImageNum)
    requires forall a :: a in arrays ==> WellFormed(a)
    ensures FindImage(arrays, num).None? <==> forall k :: 0 <= k < |arrays| ==> !HoldsNum(arrays[k], num)
    ensures FindImage(arrays, num).Some? ==>
              exists k: nat, i: nat :: TakenFrom(arrays, num, FindImage(arrays, num).value, k, i)
  {
    hide ImageForNum, HoldsNum, WellFormed;
    if arrays != [] {
      var n := |arrays| - 1;
      assert arrays[n] in arrays;
      ImageForNumFirst(arrays[n], num);
      var front := arrays[..n];
      if ImageForNum(arrays[n], num).Some? {
        var i: nat :| IsFirst(arrays[n], num, i) && ImageForNum(arrays[n], num) == Some(arrays[n].images[i]);
        assert TakenFrom(arrays, num, FindImage(arrays, num).value, n, i);
      } else {
        FindImageExactly(front, num);
        assert forall k :: 0 <= k < n ==> front[k] == arrays[k];
        if FindImage(front, num).Some? {
          var k: nat, i: nat :| TakenFrom(front, num, FindImage(front, num).value, k, i);
          assert TakenFrom(arrays, num, FindImage(arrays, num).value, k, i);
        }
      }
    }
  }

  // ----- the set of image numbers in use ------------------------------------------------------

  const BITMAP_SIZE := 5120

  class ImageNumSet {
    const bitmap: array<bool>
    var overflow: seq<ImageNum>

    ghost predicate Valid() reads this { bitmap.Length == BITMAP_SIZE }

    /** The set this object stands for. */
    ghost predicate Has(num: ImageNum)
      requires Valid()
      reads this, bitmap
    {
      if num < BITMAP_SIZE then bitmap[num] else num in overflow
    }

    constructor ()
      ensures Valid() && fresh(bitmap) && forall num :: !Has(num)
    {
      bitmap := new bool[BITMAP_SIZE](_ => false);
      overflow := [];
    }

    method Add(num: ImageNum)
      requires Valid()
      modifies this`overflow, bitmap
      ensures Valid() && forall n :: Has(n) <==> old(Has(n)) || n == num
    {
      if num < BITMAP_SIZE {
        bitmap[num] := true;
      } else {
        overflow := overflow + [num];
      }
    }

    method Contains(num: ImageNum) returns (found: bool)
      requires Valid()
      ensures found <==> Has(num)
    {
      if num < BITMAP_SIZE { return bitmap[num]; }
      for i := 0 to |overflow|
        invariant forall j :: 0 <= j < i ==> overflow[j] != num
      {
        if overflow[i] == num { return true; }
      }
      return false;
    }
  }

  // ----- overrides ------------------------------------------------------------------------------

  datatype ImageOverride = ImageOverride(inCache: ImageNum, replacement: ImageNum)

  /** Overrides of cache images, in array order; prebuilt cache arrays count only for MacCatalyst. */
  function OverridesIn(images: seq<Image>): seq<ImageOverride>
  {
    if images == [] then [] else
    var last := images[|images| - 1];
    OverridesIn(images[..|images| - 1])
      + if last.overrideOf.Some? then [ImageOverride(last.overrideOf.value, last.imageNum)] else []
  }

  function Overrides(arrays: seq<ImageArray>, iOSonMac: bool): seq<ImageOverride>
  {
    if arrays == [] then [] else
    var last := arrays[|arrays| - 1];
    Overrides(arrays[..|arrays| - 1], iOSonMac)
      + if last.firstImageNum < FIRST_LAUNCH_CLOSURE_IMAGE_NUM && !iOSonMac then [] else OverridesIn(last.images)
  }

  /** Image `b` of array `a` is an override that counts. */
  predicate OverrideAt(arrays: seq<ImageArray>, iOSonMac: bool, a: nat, b: nat)
  {
    && a < |arrays| && b < |arrays[a].images|
    && (arrays[a].firstImageNum >= 0x2000 || iOSonMac)
    && arrays[a].images[b].overrideOf != None
  }

  /** Entry `o` is made from image `b` of array `a`. */
  predicate EntryOf(arrays: seq<ImageArray>, iOSonMac: bool, o: ImageOverride, a: nat, b: nat)
  {
    && OverrideAt(arrays, iOSonMac, a, b)
    && arrays[a].images[b].overrideOf == Some(o.inCache) && arrays[a].images[b].imageNum == o.replacement
  }

  /** The list has one entry for each of these places, in array order, and no other. */
  ghost predicate ListsPlaces(arrays: seq<ImageArray>, iOSonMac: bool, overrides: seq<ImageOverride>, at: seq<(nat, nat)>)
  {
    && |at| == |overrides|
    && (forall i :: 0 <= i < |at| ==> EntryOf(arrays, iOSonMac, overrides[i], at[i].0, at[i].1))
    && (forall i, j :: 0 <= i < j < |at| ==> at[i].0 < at[j].0 || (at[i].0 == at[j].0 && at[i].1 < at[j].1))
    && (forall a: nat, b: nat :: OverrideAt(arrays, iOSonMac, a, b) ==> exists i :: 0 <= i < |at| && at[i] == (a, b))
  }

  /** The same for a single list of images, all of which count. */
  ghost predicate ListsImages(images: seq<Image>, overrides: seq<ImageOverride>, at: seq<nat>)
  {
    && |at| == |overrides|
    && (forall i :: 0 <= i < |at| ==>
          && at[i] < |images| && images[at[i]].overrideOf == Some(overrides[i].inCache)
          && images[at[i]].imageNum == overrides[i].replacement)
    && (forall i, j :: 0 <= i < j < |at| ==> at[i] < at[j])
    && (forall b: nat :: b < |images| && images[b].overrideOf != None ==> exists i :: 0 <= i < |at| && at[i] == b)
  }

  lemma ImagesSnoc(images: seq<Image>, image: Image, overrides: seq<ImageOverride>, at: seq<nat>)
    requires ListsImages(images, overrides, at)
    ensures image.overrideOf.None? ==> ListsImages(images + [image], overrides, at)
    ensures image.overrideOf.Some? ==>
              ListsImages(images + [image], overrides + [ImageOverride(image.overrideOf.value, image.imageNum)], at + [|images|])
  {
    forall b: nat | b < |images| && images[b].overrideOf != None
      ensures exists i :: 0 <= i < |at| && at[i] == b && (at + [|images|])[i] == b
    {
      var i :| 0 <= i < |at| && at[i] == b;
      assert (at + [|images|])[i] == b;
    }
    assert (at + [|images|])[|at|] == |images|;
  }

  lemma {:induction false} OverridesInPlaces(images: seq<Image>) returns (at: seq<nat>)
    ensures ListsImages(images, OverridesIn(images), at)
  {
    if images == [] {
      at := [];
    } else {
      hide ListsImages;
      var n := |images| - 1;
      at := OverridesInPlaces(images[..n]);
      ImagesSnoc(images[..n], images[n], OverridesIn(images[..n]), at);
      assert images[..n] + [images[n]] == images;
      if images[n].overrideOf.Some? {
        at := at + [n];
      } else {
        assert OverridesIn(images[..n]) + [] == OverridesIn(images[..n]);
      }
    }
  }

  lemma PlaceKept(front: seq<ImageArray>, last: ImageArray, iOSonMac: bool, a: nat, b: nat)
    requires a < |front|
    ensures OverrideAt(front + [last], iOSonMac, a, b) <==> OverrideAt(front, iOSonMac, a, b)
    ensures forall o :: EntryOf(front + [last], iOSonMac, o, a, b) <==> EntryOf(front, iOSonMac, o, a, b)
  {
  }

  lemma PlacesSkip(front: seq<ImageArray>, last: ImageArray, iOSonMac: bool, overrides: seq<ImageOverride>, at: seq<(nat, nat)>)
    requires ListsPlaces(front, iOSonMac, overrides, at)
    requires last.firstImageNum < 0x2000 && !iOSonMac
    ensures ListsPlaces(front + [last], iOSonMac, overrides, at)
  {
    forall i | 0 <= i < |at| ensures EntryOf(front + [last], iOSonMac, overrides[i], at[i].0, at[i].1) {
      PlaceKept(front, last, iOSonMac, at[i].0, at[i].1);
    }
    forall a: nat, b: nat | OverrideAt(front + [last], iOSonMac, a, b) ensures OverrideAt(front, iOSonMac, a, b) {
      PlaceKept(front, last, iOSonMac, a, b);
    }
  }

  function Placed(n: nat, more: seq<nat>): (at: seq<(nat, nat)>)
    ensures |at| == |more| && forall i :: 0 <= i < |at| ==> at[i] == (n, more[i])
  {
    seq(|more|, i requires 0 <= i < |more| => (n, more[i]))
  }

  lemma PlacesSnoc(front: seq<ImageArray>, last: ImageArray, iOSonMac: bool,
                   o: seq<ImageOverride>, before: seq<(nat, nat)>, p: seq<ImageOverride>, more: seq<nat>)
    requires ListsPlaces(front, iOSonMac, o, before) && ListsImages(last.images, p, more)
    requires last.firstImageNum >= 0x2000 || iOSonMac
    ensures ListsPlaces(front + [last], iOSonMac, o + p, before + Placed(|front|, more))
  {
    var n := |front|;
    var at := before + Placed(n, more);
    forall i | 0 <= i < |at| ensures EntryOf(front + [last], iOSonMac, (o + p)[i], at[i].0, at[i].1) {
      if i < |before| {
        assert EntryOf(front, iOSonMac, o[i], before[i].0, before[i].1);
        PlaceKept(front, last, iOSonMac, before[i].0, before[i].1);
      } else {
        assert at[i] == (n, more[i - |before|]) && (o + p)[i] == p[i - |before|];
        assert (front + [last])[n] == last;
      }
    }
    PlacesOrdered(front, iOSonMac, o, before, more);
    PlacesComplete(front, last, iOSonMac, o, before, p, more);
  }

  lemma PlacesOrdered(front: seq<ImageArray>, iOSonMac: bool, o: seq<ImageOverride>, before: seq<(nat, nat)>, more: seq<nat>)
    requires ListsPlaces(front, iOSonMac, o, before)
    requires forall i, j :: 0 <= i < j < |more| ==> more[i] < more[j]
    ensures var at := before + Placed(|front|, more);
            forall i, j :: 0 <= i < j < |at| ==> at[i].0 < at[j].0 || (at[i].0 == at[j].0 && at[i].1 < at[j].1)
  {
    var at := before + Placed(|front|, more);
    forall i, j | 0 <= i < j < |at|
      ensures at[i].0 < at[j].0 || (at[i].0 == at[j].0 && at[i].1 < at[j].1)
    {
      if i < |before| {
        assert at[i] == before[i] && EntryOf(front, iOSonMac, o[i], before[i].0, before[i].1);
      }
    }
  }

  lemma PlacesComplete(front: seq<ImageArray>, last: ImageArray, iOSonMac: bool,
                       o: seq<ImageOverride>, before: seq<(nat, nat)>, p: seq<ImageOverride>, more: seq<nat>)
    requires ListsPlaces(front, iOSonMac, o, before) && ListsImages(last.images, p, more)
    ensures var at := before + Placed(|front|, more);
            forall a: nat, b: nat :: OverrideAt(front + [last], iOSonMac, a, b) ==> exists i :: 0 <= i < |at| && at[i] == (a, b)
  {
    var at := before + Placed(|front|, more);
    forall a: nat, b: nat | OverrideAt(front + [last], iOSonMac, a, b)
      ensures exists i :: 0 <= i < |at| && at[i] == (a, b)
    {
      if a < |front| {
        PlaceKept(front, last, iOSonMac, a, b);
        var i :| 0 <= i < |before| && before[i] == (a, b);
        assert at[i] == (a, b);
      } else {
        var i :| 0 <= i < |more| && more[i] == b;
        assert at[|before| + i] == (a, b);
      }
    }
  }

  lemma {:induction false} OverridesPlaces(arrays: seq<ImageArray>, iOSonMac: bool) returns (at: seq<(nat, nat)>)
    ensures ListsPlaces(arrays, iOSonMac, Overrides(arrays, iOSonMac), at)
  {
    if arrays == [] {
      at := [];
    } else {
      hide ListsPlaces, ListsImages, OverridesIn;
      var n := |arrays| - 1;
      at := OverridesPlaces(arrays[..n], iOSonMac);
      assert arrays[..n] + [arrays[n]] == arrays;
      if arrays[n].firstImageNum < 0x2000 && !iOSonMac {
        PlacesSkip(arrays[..n], arrays[n], iOSonMac, Overrides(arrays[..n], iOSonMac), at);
        assert Overrides(arrays[..n], iOSonMac) + [] == Overrides(arrays[..n], iOSonMac);
      } else {
        var more := OverridesInPlaces(arrays[n].images);
        PlacesSnoc(arrays[..n], arrays[n], iOSonMac, Overrides(arrays[..n], iOSonMac), at,
                   OverridesIn(arrays[n].images), more);
        at := at + Placed(n, more);
      }
    }
  }

  /** The overrides of all arrays that count: one for each overriding image, in order. */
  method CollectOverrides(arrays: seq<ImageArray>, iOSonMac: bool) returns (overrides: seq<ImageOverride>)
    ensures overrides == Overrides(arrays, iOSonMac)
    ensures exists at :: ListsPlaces(arrays, iOSonMac, overrides, at)
  {
    hide ListsPlaces;
    ghost var places := OverridesPlaces(arrays, iOSonMac);
    overrides := [];
    for k := 0 to |arrays|
      invariant overrides == Overrides(arrays[..k], iOSonMac)
    {
      assert arrays[..k + 1][..k] == arrays[..k];
      var anArray := arrays[k];
      if !(anArray.firstImageNum < FIRST_LAUNCH_CLOSURE_IMAGE_NUM && !iOSonMac) {
        ghost var before := overrides;
        for i := 0 to |anArray.images|
          invariant overrides == before + OverridesIn(anArray.images[..i])
        {
          assert anArray.images[..i + 1][..i] == anArray.images[..i];
          if anArray.images[i].overrideOf.Some? {
            overrides := overrides + [ImageOverride(anArray.images[i].overrideOf.value, anArray.images[i].imageNum)];
          }
        }
        assert anArray.images[..|anArray.images|] == anArray.images;
      }
    }
    assert arrays[..|arrays|] == arrays;
  }

  /** The first override of the number, else the number itself. */
  function Mapped(overrides: seq<ImageOverride>, num: ImageNum): ImageNum
  {
    if overrides == [] then num
    else if overrides[0].inCache == num then overrides[0].replacement
    else Mapped(overrides[1..], num)
  }

  method MapDependent(overrides: seq<ImageOverride>, num: ImageNum) returns (mapped: ImageNum)
    ensures mapped == Mapped(overrides, num)
    ensures (forall k :: 0 <= k < |overrides| ==> overrides[k].inCache != num) ==> mapped == num
    ensures (exists k :: 0 <= k < |overrides| && overrides[k].inCache == num) ==>
              exists k :: 0 <= k < |overrides| && overrides[k].inCache == num && mapped == overrides[k].replacement
                          && forall j :: 0 <= j < k ==> overrides[j].inCache != num
  {
    for k := 0 to |overrides|
      invariant Mapped(overrides[k..], num) == Mapped(overrides, num)
      invariant forall j :: 0 <= j < k ==> overrides[j].inCache != num
    {
      if overrides[k].inCache == num { return overrides[k].replacement; }
    }
    return num;
  }

  // ----- completing the dependents ----------------------------------------------------------------

  /** `num` is an override-mapped dependent of the image. */
  predicate DependsOn(overrides: seq<ImageOverride>, image: Image, num: ImageNum)
  {
    exists k :: 0 <= k < |image.dependents| && Reported(image.dependents[k])
      && Mapped(overrides, image.dependents[k].imageNum) == num
  }

  lemma DependsExactly(overrides: seq<ImageOverride>, image: Image, num: ImageNum)
    ensures DependsOn(overrides, image, num) <==>
            exists k :: 0 <= k < |image.dependents|
              && !(image.dependents[k].imageNum == 0x0FFF_FFFF && image.dependents[k].kind == Weak)
              && Mapped(overrides, image.dependents[k].imageNum) == num
  {
  }

  predicate HasNum(images: seq<Image>, num: ImageNum)
  {
    exists k :: 0 <= k < |images| && images[k].imageNum == num
  }

  predicate DistinctNums(images: seq<Image>)
  {
    forall j, k :: 0 <= j < k < |images| ==> images[j].imageNum != images[k].imageNum
  }

  datatype LoadError = TooManyImages(found: ImageNum) | UnableToLocate(num: ImageNum)

  /** Numbers that must be loaded along with the top: closed under mapped dependents not already loaded. */
  ghost predicate ClosedFrom(
    arrays: seq<ImageArray>, overrides: seq<ImageOverride>, existing: seq<Image>, top: Image, t: set<ImageNum>)
  {
    && top.imageNum in t
    && (forall num :: DependsOn(overrides, top, num) ==> num in t || HasNum(existing, num))
    && forall n, num :: n in t && FindImage(arrays, n).Some? && DependsOn(overrides, FindImage(arrays, n).value, num) ==>
         num in t || HasNum(existing, num)
  }

  class Loader {
    const existingImages: seq<Image>
    const imagesArrays: seq<ImageArray>
    const capacity: nat
    var newImages: seq<Image>

    constructor (existing: seq<Image>, arrays: seq<ImageArray>, maxCount: nat, top: Image)
      requires maxCount > 0
      ensures existingImages == existing && imagesArrays == arrays && capacity == maxCount && newImages == [top]
    {
      existingImages, imagesArrays, capacity, newImages := existing, arrays, maxCount, [top];
    }

    /** What holds of the new images at every moment of the loading. */
    ghost predicate Growing(top: Image, overrides: seq<ImageOverride>)
      reads this
    {
      && newImages != [] && newImages[0] == top && |newImages| <= capacity
      && DistinctNums(newImages)
      && (forall k :: 0 <= k < |newImages| ==> !HasNum(existingImages, newImages[k].imageNum))
      && (forall k :: 0 < k < |newImages| ==> FindImage(imagesArrays, newImages[k].imageNum) == Some(newImages[k]))
      && (forall t, k :: ClosedFrom(imagesArrays, overrides, existingImages, top, t) && 0 <= k < |newImages| ==>
            newImages[k].imageNum in t)
    }

    /** The mapped dependents of the first `n` new images are loaded. */
    ghost predicate CompleteTo(overrides: seq<ImageOverride>, n: nat)
      reads this
    {
      forall k, num :: 0 <= k < |newImages| && k < n && DependsOn(overrides, newImages[k], num) ==>
        HasNum(existingImages, num) || HasNum(newImages, num)
    }

    /** The error names a mapped dependent of a new image that is not loaded, and is true of it. */
    ghost predicate ErrorTrue(overrides: seq<ImageOverride>, error: LoadError)
      reads this
    {
      match error
      case UnableToLocate(num) =>
        FindImage(imagesArrays, num).None? && Wanted(overrides, num)
      case TooManyImages(num) =>
        FindImage(imagesArrays, num).Some? && |newImages| == capacity && Wanted(overrides, num)
    }

    ghost predicate Wanted(overrides: seq<ImageOverride>, num: ImageNum)
      reads this
    {
      !HasNum(existingImages, num) && !HasNum(newImages, num)
      && exists k :: 0 <= k < |newImages| && DependsOn(overrides, newImages[k], num)
    }

    ghost predicate Tracks(alreadyLoaded: ImageNumSet)
      reads this, alreadyLoaded, alreadyLoaded.bitmap
    {
      alreadyLoaded.Valid() && forall num :: alreadyLoaded.Has(num) <==> HasNum(existingImages, num) || HasNum(newImages, num)
    }

    /** One dependent of the image at `index`: load it unless it is loaded already. */
    method LoadDependent(num: ImageNum, alreadyLoaded: ImageNumSet, ghost top: Image, ghost overrides: seq<ImageOverride>,
                         ghost index: nat)
      returns (error: Option<LoadError>)
      requires (forall a :: a in imagesArrays ==> WellFormed(a))
      requires Growing(top, overrides) && Tracks(alreadyLoaded)
      requires index < |newImages| && DependsOn(overrides, newImages[index], num)
      modifies this`newImages, alreadyLoaded`overflow, alreadyLoaded.bitmap
      ensures Growing(top, overrides) && old(newImages) <= newImages
      ensures error.Some? ==> ErrorTrue(overrides, error.value)
      ensures error.None? ==> Tracks(alreadyLoaded) && (HasNum(existingImages, num) || HasNum(newImages, num))
    {
      var loaded := alreadyLoaded.Contains(num);
      if loaded { return None; }
      var depImage := FindImage(imagesArrays, num);
      if depImage.None? { return Some(UnableToLocate(num)); }
      if |newImages| == capacity {
        alreadyLoaded.Add(num);
        return Some(TooManyImages(num));
      }
      forall t | ClosedFrom(imagesArrays, overrides, existingImages, top, t) ensures num in t {
        assert newImages[index].imageNum in t;
      }
      ghost var before := newImages;
      newImages := newImages + [depImage.value];
      HasNumSnoc(before, depImage.value);
      alreadyLoaded.Add(num);
      return None;
    }

    /** All dependents of the image at `index`. */
    method LoadDependentsOf(index: nat, alreadyLoaded: ImageNumSet, overrides: seq<ImageOverride>, ghost top: Image)
      returns (error: Option<LoadError>)
      requires (forall a :: a in imagesArrays ==> WellFormed(a))
      requires Growing(top, overrides) && Tracks(alreadyLoaded) && index < |newImages| && CompleteTo(overrides, index)
      modifies this`newImages, alreadyLoaded`overflow, alreadyLoaded.bitmap
      ensures Growing(top, overrides) && old(newImages) <= newImages
      ensures error.Some? ==> ErrorTrue(overrides, error.value)
      ensures error.None? ==> Tracks(alreadyLoaded) && CompleteTo(overrides, index + 1)
    {
      var image := newImages[index];
      var deps := image.dependents;
      for k := 0 to |deps|
        invariant Growing(top, overrides) && old(newImages) <= newImages && Tracks(alreadyLoaded)
        invariant forall j :: 0 <= j < k && Reported(deps[j]) ==>
                    var num := Mapped(overrides, deps[j].imageNum); HasNum(existingImages, num) || HasNum(newImages, num)
      {
        if Reported(deps[k]) {
          var num := MapDependent(overrides, deps[k].imageNum);
          assert DependsOn(overrides, newImages[index], num);
          ghost var before := newImages;
          error := LoadDependent(num, alreadyLoaded, top, overrides, index);
          if error.Some? { return; }
          HasNumMore(before, newImages);
        }
      }
      HasNumMore(old(newImages), newImages);
      error := None;
    }

    /** Loads every dependent, direct or not, of the one new image. */
    method CompleteAllDependents(iOSonMac: bool) returns (error: Option<LoadError>, someCacheImageOverridden: bool)
      requires (forall a :: a in imagesArrays ==> WellFormed(a))
      requires |newImages| == 1 <= capacity && !HasNum(existingImages, newImages[0].imageNum)
      modifies this`newImages
      ensures someCacheImageOverridden <==> Overrides(imagesArrays, iOSonMac) != []
      ensures Growing(old(newImages)[0], Overrides(imagesArrays, iOSonMac))
      ensures error.None? ==> CompleteTo(Overrides(imagesArrays, iOSonMac), |newImages|)
      ensures error.Some? ==> ErrorTrue(Overrides(imagesArrays, iOSonMac), error.value)
    {
      var overrides := CollectOverrides(imagesArrays, iOSonMac);
      someCacheImageOverridden := overrides != [];
      ghost var top := newImages[0];
      var alreadyLoaded := new ImageNumSet();
      for k := 0 to |existingImages|
        invariant alreadyLoaded.Valid() && fresh(alreadyLoaded) && fresh(alreadyLoaded.bitmap)
        invariant forall num :: alreadyLoaded.Has(num) <==> HasNum(existingImages[..k], num)
        invariant newImages == old(newImages)
      {
        alreadyLoaded.Add(existingImages[k].imageNum);
        HasNumSnoc(existingImages[..k], existingImages[k]);
        assert existingImages[..k + 1] == existingImages[..k] + [existingImages[k]];
      }
      assert existingImages[..|existingImages|] == existingImages;
      alreadyLoaded.Add(newImages[0].imageNum);
      var index := 0;
      error := None;
      while index < |newImages| && error.None?
        invariant index <= |newImages| && Growing(top, overrides)
        invariant fresh(alreadyLoaded) && fresh(alreadyLoaded.bitmap)
        invariant error.None? ==> Tracks(alreadyLoaded) && CompleteTo(overrides, index)
        invariant error.Some? ==> ErrorTrue(overrides, error.value)
        decreases capacity - index
      {
        error := LoadDependentsOf(index, alreadyLoaded, overrides, top);
        index := index + 1;
      }
    }
  }

  lemma HasNumSnoc(images: seq<Image>, image: Image)
    ensures forall num :: HasNum(images + [image], num) <==> HasNum(images, num) || num == image.imageNum
  {
    var s := images + [image];
    assert s[|images|] == image && forall k :: 0 <= k < |images| ==> s[k] == images[k];
  }

  lemma HasNumMore(a: seq<Image>, b: seq<Image>)
    requires a <= b
    ensures forall num :: HasNum(a, num) ==> HasNum(b, num)
  {
    assert forall k :: 0 <= k < |a| ==> a[k] == b[k];
  }

  /** Complete new images are exactly what the top needs: the least closed set. */
  lemma CompleteIsLeast(arrays: seq<ImageArray>, overrides: seq<ImageOverride>, existing: seq<Image>, top: Image, images: seq<Image>)
    requires forall a :: a in arrays ==> WellFormed(a)
    requires images != [] && images[0] == top && FindImage(arrays, top.imageNum) == Some(top)
    requires forall k :: 0 < k < |images| ==> FindImage(arrays, images[k].imageNum) == Some(images[k])
    requires forall k, num :: 0 <= k < |images| && DependsOn(overrides, images[k], num) ==>
               HasNum(existing, num) || HasNum(images, num)
    requires forall t, k :: ClosedFrom(arrays, overrides, existing, top, t) && 0 <= k < |images| ==> images[k].imageNum in t
    ensures var nums := set k | 0 <= k < |images| :: images[k].imageNum;
            && ClosedFrom(arrays, overrides, existing, top, nums)
            && forall t :: ClosedFrom(arrays, overrides, existing, top, t) ==> nums <= t
  {
    hide FindImage, DependsOn;
    var nums := set k | 0 <= k < |images| :: images[k].imageNum;
    forall n, num | n in nums && FindImage(arrays, n).Some? && DependsOn(overrides, FindImage(arrays, n).value, num)
      ensures num in nums || HasNum(existing, num)
    {
      var k :| 0 <= k < |images| && images[k].imageNum == n;
      assert HasNum(existing, num) || HasNum(images, num);
    }
    forall num | DependsOn(overrides, top, num) ensures num in nums || HasNum(existing, num) {
      assert HasNum(existing, num) || HasNum(images, num);
    }
  }

  // ----- the index cache in front of image lookup -----------------------------------------------

  function Key(image: Image): ImageKey { ImageKey(image.imageNum, image.overrideOf) }

  const CACHE_SIZE := 128

  /** The numbers that have a slot in the cache. */
  predicate HasSlot(num: ImageNum)
  {
    FIRST_LAUNCH_CLOSURE_IMAGE_NUM <= num < FIRST_LAUNCH_CLOSURE_IMAGE_NUM + CACHE_SIZE
  }

  class LaunchImagesCache {
    /** Index plus one of the image for each of the first launch image numbers; zero when not cached. */
    const imageIndices: array<nat>

    /** Every cached index is the one the linear scan finds. */
    ghost predicate Valid(images: seq<Image>)
      reads imageIndices
    {
      && imageIndices.Length == CACHE_SIZE
      && forall c :: 0 <= c < CACHE_SIZE && imageIndices[c] != 0 ==>
           imageIndices[c] - 1 == Locate(images, Key, FIRST_LAUNCH_CLOSURE_IMAGE_NUM + c) < |images|
    }

    constructor (ghost images: seq<Image>)
      ensures Valid(images) && fresh(imageIndices)
    {
      imageIndices := new nat[CACHE_SIZE](_ => 0);
    }

    method Find(num: ImageNum, ghost images: seq<Image>) returns (k: Option<nat>)
      requires Valid(images)
      ensures k.Some? ==> k.value == Locate(images, Key, num) < |images|
      ensures k.Some? <==> 0x2000 <= num < 0x2000 + 128 && imageIndices[num - 0x2000] != 0
    {
      if !HasSlot(num) { return None; }
      var imagesIndex := imageIndices[num - FIRST_LAUNCH_CLOSURE_IMAGE_NUM];
      if imagesIndex == 0 { return None; }
      return Some(imagesIndex - 1);
    }

    method TryAdd(num: ImageNum, allImagesIndex: nat, ghost images: seq<Image>)
      requires Valid(images) && allImagesIndex == Locate(images, Key, num) < |images|
      modifies imageIndices
      ensures Valid(images)
      ensures imageIndices[..] ==
                if HasSlot(num) then old(imageIndices[..])[num - FIRST_LAUNCH_CLOSURE_IMAGE_NUM := allImagesIndex + 1]
                else old(imageIndices[..])
    {
      if !HasSlot(num) { return; }
      imageIndices[num - FIRST_LAUNCH_CLOSURE_IMAGE_NUM] := allImagesIndex + 1;
    }

    /** Lookup through the cache gives exactly the answer of the linear scan. */
    method FindImage(num: ImageNum, images: seq<Image>) returns (k: Option<nat>)
      requires Valid(images)
      modifies imageIndices
      ensures Valid(images)
      ensures k == if Locate(images, Key, num) < |images| then Some(Locate(images, Key, num)) else None
      ensures k.Some? && HasSlot(num) ==> imageIndices[num - FIRST_LAUNCH_CLOSURE_IMAGE_NUM] == k.value + 1
    {
      k := Find(num, images);
      if k.Some? { return; }
      for index := 0 to |images|
        invariant Valid(images) && index <= Locate(images, Key, num)
      {
        if Represents(Key(images[index]), num) {
          TryAdd(num, index, images);
          return Some(index);
        }
      }
      return None;
    }
  }

  /** The cache stays right while images are added. */
  lemma CacheStaysValid(cache: LaunchImagesCache, images: seq<Image>, more: seq<Image>)
    requires cache.Valid(images)
    ensures cache.Valid(images + more)
  {
    forall c | 0 <= c < CACHE_SIZE && cache.imageIndices[c] != 0
      ensures cache.imageIndices[c] - 1 == Locate(images + more, Key, FIRST_LAUNCH_CLOSURE_IMAGE_NUM + c)
    {
      LocateStable(images, Key, more, FIRST_LAUNCH_CLOSURE_IMAGE_NUM + c);
    }
  }
}
