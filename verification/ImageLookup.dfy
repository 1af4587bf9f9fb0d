/** How the runtime refers to images: by number, where an image also answers for the cache image it overrides. */
module ImageLookup {
  import opened Wrappers
  import opened ImageGraph

  datatype ImageKey = ImageKey(imageNum: ImageNum, overrideOf: Option<ImageNum>)

  predicate Represents(key: ImageKey, num: ImageNum)
  {
    key.imageNum == num || key.overrideOf == Some(num)
  }

  /** The linear scan: the first image answering to a number; the length when there is none. */
  function Locate<T>(images: seq<T>, key: T -> ImageKey, num: ImageNum): (k: nat)
    ensures k <= |images| && (k < |images| ==> Represents(key(images[k]), num))
    ensures forall j :: 0 <= j < k ==> !Represents(key(images[j]), num)
  {
    if images == [] || Represents(key(images[0]), num) then 0 else 1 + Locate(images[1..], key, num)
  }

  /** In terms of the two numbers an image has: its own and, for an override, the one it stands in for. */
  lemma LocateFirst<T>(images: seq<T>, key: T -> ImageKey, num: ImageNum)
    ensures var k := Locate(images, key, num);
            && (k < |images| ==> key(images[k]).imageNum == num || key(images[k]).overrideOf == Some(num))
            && forall j :: 0 <= j < k ==> key(images[j]).imageNum != num && key(images[j]).overrideOf != Some(num)
  {
  }

  /** Images added later never change where a scan finds an image it found before. */
  lemma {:induction false} LocateStable<T>(images: seq<T>, key: T -> ImageKey, more: seq<T>, num: ImageNum)
    requires Locate(images, key, num) < |images|
    ensures Locate(images + more, key, num) == Locate(images, key, num)
  {
    if !Represents(key(images[0]), num) {
      LocateStable(images[1..], key, more, num);
      assert (images + more)[1..] == images[1..] + more;
    } else {
      assert (images + more)[0] == images[0];
    }
  }

  /** Missing weak links are not reported to the callers of the dependents walk. */
  predicate Reported(d: LinkedImage)
  {
    !(d.imageNum == MISSING_WEAK_LINKED_IMAGE && d.kind.Weak?)
  }
}
