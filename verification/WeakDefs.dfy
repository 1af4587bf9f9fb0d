/** Coalescing a weak symbol across all images in load order, and redirecting the cache's own definitions. */
module WeakDefs {
  import opened MachineWords
  import opened Wrappers

  type MachHeader = nat

  /** Where a symbol was found; a re-export is found in another image than the one searched. */
  datatype FixupTarget = FixupTarget(foundInImage: MachHeader, offsetInImage: nat, isWeakDef: bool)

  /** An image as the lookup sees it: `found` is what searching it for the symbol gives. */
  datatype Image = Image(mh: MachHeader, hidden: bool, hasWeakDefs: bool, inDyldCache: bool,
                         cacheIndex: Option<nat>, found: Option<FixupTarget>)

  /** The cached dylib, the definition's 32-bit offset in the cache, and the definition to use instead of it. */
  datatype Patch = Patch(cachedDylibIndex: nat, exportCacheOffset: uint32, replacement: FixupTarget)

  /** A definition that takes part: the image itself defines the symbol, and the looker may see it. */
  predicate Eligible(from: MachHeader, image: Image)
  {
    && image.hasWeakDefs
    && (image.hidden ==> from == image.mh)
    && image.found.Some? && image.found.value.foundInImage == image.mh
  }

  function Definers(from: MachHeader, images: seq<Image>): (definers: seq<Image>)
    ensures forall d :: d in definers ==> d in images && Eligible(from, d)
  {
    if images == [] then [] else
    var before := Definers(from, images[..|images| - 1]);
    if Eligible(from, images[|images| - 1]) then before + [images[|images| - 1]] else before
  }

  /** The cache can be patched: the image is cached, and the cache knows its index. */
  predicate Patchable(image: Image) { image.inDyldCache && image.cacheIndex.Some? }

  function PatchFor(cacheBase: nat, image: Image, target: FixupTarget): Patch
    requires Patchable(image) && image.found.Some?
  {
    var found := image.found.value;
    Patch(image.cacheIndex.value, (found.foundInImage + found.offsetInImage - cacheBase) % 0x1_0000_0000, target)
  }

  /** The chosen definition: the first that is not weak, otherwise the first. */
  ghost predicate IsChosen(definers: seq<Image>, k: nat)
    requires forall d :: d in definers ==> d.found.Some?
  {
    && k < |definers|
    && (forall i :: 0 <= i < k ==> definers[i].found.value.isWeakDef)
    && (definers[k].found.value.isWeakDef ==>
          k == 0 && forall i :: 0 <= i < |definers| ==> definers[i].found.value.isWeakDef)
  }

  /** The patches that send every cached definition but the target's own to the target. */
  function Wanted(cacheBase: nat, definers: seq<Image>, target: FixupTarget): (patches: seq<Patch>)
    requires forall d :: d in definers ==> d.found.Some?
    ensures forall p :: p in patches ==> p.replacement == target
  {
    if definers == [] then [] else
    var last := definers[|definers| - 1];
    Wanted(cacheBase, definers[..|definers| - 1], target)
    + if Patchable(last) && last.mh != target.foundInImage then [PatchFor(cacheBase, last, target)] else []
  }

  /** The target and the patches so far, as the walk over the definers leaves them. */
  datatype State = State(target: Option<FixupTarget>, patches: seq<Patch>)

  function Visit(cacheBase: nat, s: State, image: Image): State
    requires image.found.Some?
  {
    var found := image.found.value;
    match s.target
    case None => State(Some(found), s.patches)
    case Some(target) =>
      var patches := if Patchable(image) && image.mh != target.foundInImage
                     then s.patches + [PatchFor(cacheBase, image, target)] else s.patches;
      State(Some(if target.isWeakDef && !found.isWeakDef then found else target), patches)
  }

  function Walk(cacheBase: nat, definers: seq<Image>): State
    requires forall d :: d in definers ==> d.found.Some?
  {
    if definers == [] then State(None, [])
    else Visit(cacheBase, Walk(cacheBase, definers[..|definers| - 1]), definers[|definers| - 1])
  }

  lemma WalkSnoc(cacheBase: nat, definers: seq<Image>, image: Image)
    requires image.found.Some? && forall d :: d in definers ==> d.found.Some?
    ensures Walk(cacheBase, definers + [image]) == Visit(cacheBase, Walk(cacheBase, definers), image)
  {
    assert (definers + [image])[..|definers|] == definers;
  }

  // ----- the same by positions in the load order ------------------------------------------------

  /** `target` is what the first eligible non-weak image defines, or the first eligible one when all are weak. */
  ghost predicate FirstDefinition(from: MachHeader, images: seq<Image>, target: FixupTarget)
  {
    exists k :: 0 <= k < |images| && FirstAt(from, images, target, k)
  }

  predicate FirstAt(from: MachHeader, images: seq<Image>, target: FixupTarget, k: nat)
    requires k < |images|
  {
    && Eligible(from, images[k]) && images[k].found == Some(target)
    && (if target.isWeakDef
        then (forall j :: 0 <= j < k ==> !Eligible(from, images[j]))
             && forall j :: k < j < |images| && Eligible(from, images[j]) ==> images[j].found.value.isWeakDef
        else forall j :: 0 <= j < k && Eligible(from, images[j]) ==> images[j].found.value.isWeakDef)
  }

  lemma FirstDefinitionOnce(from: MachHeader, images: seq<Image>, s: FixupTarget, t: FixupTarget)
    requires FirstDefinition(from, images, s) && FirstDefinition(from, images, t)
    ensures s == t
  {
    var j :| 0 <= j < |images| && FirstAt(from, images, s, j);
    var k :| 0 <= k < |images| && FirstAt(from, images, t, k);
    assert j == k;
  }

  /** Image `q` is cached, defines the symbol, and is not where the definition in use before it was found. */
  ghost predicate Redirected(from: MachHeader, images: seq<Image>, q: nat, target: FixupTarget)
  {
    && q < |images| && Eligible(from, images[q])
    && images[q].inDyldCache && images[q].cacheIndex != None
    && FirstDefinition(from, images[..q], target) && target.foundInImage != images[q].mh
  }

  /** One patch for each redirected image, in load order, and no other. */
  ghost predicate PatchedAt(from: MachHeader, images: seq<Image>, cacheBase: nat, patches: seq<Patch>, at: seq<nat>)
  {
    && |at| == |patches|
    && (forall i, j :: 0 <= i < j < |at| ==> at[i] < at[j])
    && (forall i :: 0 <= i < |at| ==> PatchOf(from, images, cacheBase, patches[i], at[i]))
    && (forall q: nat, target :: Redirected(from, images, q, target) ==> exists i :: 0 <= i < |at| && at[i] == q)
  }

  /** The patch redirects the definition in image `q` to the definition in use before it. */
  ghost predicate PatchOf(from: MachHeader, images: seq<Image>, cacheBase: nat, patch: Patch, q: nat)
  {
    && Redirected(from, images, q, patch.replacement)
    && Some(patch.cachedDylibIndex) == images[q].cacheIndex
    && patch.exportCacheOffset ==
         (images[q].mh + images[q].found.value.offsetInImage - cacheBase) % 0x1_0000_0000
  }

  lemma FirstDefinitionSnoc(from: MachHeader, images: seq<Image>, image: Image, target: FixupTarget)
    requires FirstDefinition(from, images, target)
    ensures var use := if Eligible(from, image) && target.isWeakDef && !image.found.value.isWeakDef
                       then image.found.value else target;
            FirstDefinition(from, images + [image], use)
  {
    var k :| 0 <= k < |images| && FirstAt(from, images, target, k);
    var all := images + [image];
    assert forall j :: 0 <= j < |images| ==> all[j] == images[j];
    if Eligible(from, image) && target.isWeakDef && !image.found.value.isWeakDef {
      assert FirstAt(from, all, image.found.value, |images|);
    } else {
      assert FirstAt(from, all, target, k);
    }
  }

  lemma FirstDefinitionFirst(from: MachHeader, images: seq<Image>, image: Image)
    requires Eligible(from, image) && forall j :: 0 <= j < |images| ==> !Eligible(from, images[j])
    ensures FirstDefinition(from, images + [image], image.found.value)
  {
    assert forall j :: 0 <= j < |images| ==> (images + [image])[j] == images[j];
    assert FirstAt(from, images + [image], image.found.value, |images|);
  }

  lemma RedirectedKept(from: MachHeader, images: seq<Image>, image: Image, q: nat, target: FixupTarget)
    requires q < |images|
    ensures Redirected(from, images + [image], q, target) <==> Redirected(from, images, q, target)
    ensures (images + [image])[q] == images[q]
  {
    assert (images + [image])[..q] == images[..q];
  }

  /** One more image: redirected, so it has one more patch, or not, so it has none. */
  lemma PatchedSnoc(from: MachHeader, images: seq<Image>, image: Image, cacheBase: nat,
                    patches: seq<Patch>, at: seq<nat>, patch: Patch)
    requires PatchedAt(from, images, cacheBase, patches, at)
    requires PatchOf(from, images + [image], cacheBase, patch, |images|)
    ensures PatchedAt(from, images + [image], cacheBase, patches + [patch], at + [|images|])
  {
    var all, at' := images + [image], at + [|images|];
    hide Redirected;
    forall i | 0 <= i < |at'|
      ensures PatchOf(from, all, cacheBase, (patches + [patch])[i], at'[i]) && (i < |at| ==> at'[i] < |images|)
    {
      if i < |at| { PatchKept(from, images, image, cacheBase, patches[i], at[i]); }
    }
    forall q: nat, target | Redirected(from, all, q, target)
      ensures exists i :: 0 <= i < |at'| && at'[i] == q
    {
      RedirectedInside(from, all, q, target);
      if q == |images| {
        assert at'[|at|] == q;
      } else {
        RedirectedKept(from, images, image, q, target);
        var i :| 0 <= i < |at| && at[i] == q;
        assert at'[i] == q;
      }
    }
  }

  lemma PatchedSkip(from: MachHeader, images: seq<Image>, image: Image, cacheBase: nat, patches: seq<Patch>, at: seq<nat>)
    requires PatchedAt(from, images, cacheBase, patches, at)
    requires forall target :: !Redirected(from, images + [image], |images|, target)
    ensures PatchedAt(from, images + [image], cacheBase, patches, at)
  {
    var all := images + [image];
    hide Redirected;
    forall i | 0 <= i < |at|
      ensures PatchOf(from, all, cacheBase, patches[i], at[i])
    {
      PatchKept(from, images, image, cacheBase, patches[i], at[i]);
    }
    forall q: nat, target | Redirected(from, all, q, target)
      ensures exists i :: 0 <= i < |at| && at[i] == q
    {
      RedirectedInside(from, all, q, target);
      RedirectedKept(from, images, image, q, target);
    }
  }

  lemma RedirectedInside(from: MachHeader, images: seq<Image>, q: nat, target: FixupTarget)
    requires Redirected(from, images, q, target)
    ensures q < |images|
  {
  }

  lemma PatchKept(from: MachHeader, images: seq<Image>, image: Image, cacheBase: nat, patch: Patch, q: nat)
    requires PatchOf(from, images, cacheBase, patch, q)
    ensures q < |images| && PatchOf(from, images + [image], cacheBase, patch, q)
  {
    RedirectedKept(from, images, image, q, patch.replacement);
  }

  /** The walk over the definers, told by positions in the load order. */
  lemma {:induction false} WalkPlaces(from: MachHeader, images: seq<Image>, cacheBase: nat) returns (at: seq<nat>)
    ensures var s := Walk(cacheBase, Definers(from, images));
            && (s.target == None <==> forall k :: 0 <= k < |images| ==> !Eligible(from, images[k]))
            && (s.target.Some? ==> FirstDefinition(from, images, s.target.value))
            && PatchedAt(from, images, cacheBase, s.patches, at)
  {
    if images == [] {
      at := [];
    } else {
      var n := |images| - 1;
      at := WalkPlaces(from, images[..n], cacheBase);
      assert images == images[..n] + [images[n]];
      at := WalkPlacesStep(from, images[..n], images[n], cacheBase, at);
    }
  }

  lemma WalkPlacesStep(from: MachHeader, images: seq<Image>, image: Image, cacheBase: nat, at: seq<nat>)
    returns (at': seq<nat>)
    requires var s := Walk(cacheBase, Definers(from, images));
             && (s.target == None <==> forall k :: 0 <= k < |images| ==> !Eligible(from, images[k]))
             && (s.target.Some? ==> FirstDefinition(from, images, s.target.value))
             && PatchedAt(from, images, cacheBase, s.patches, at)
    ensures var s := Walk(cacheBase, Definers(from, images + [image]));
            && (s.target == None <==> forall k :: 0 <= k < |images + [image]| ==> !Eligible(from, (images + [image])[k]))
            && (s.target.Some? ==> FirstDefinition(from, images + [image], s.target.value))
            && PatchedAt(from, images + [image], cacheBase, s.patches, at')
  {
    var all := images + [image];
    var s := Walk(cacheBase, Definers(from, images));
    assert all[..|images|] == images && all[|images|] == image;
    assert forall k :: 0 <= k < |images| ==> all[k] == images[k];
    at' := at;
    if !Eligible(from, image) {
      PatchedSkip(from, images, image, cacheBase, s.patches, at);
      if s.target.Some? { FirstDefinitionSnoc(from, images, image, s.target.value); }
    } else {
      WalkSnoc(cacheBase, Definers(from, images), image);
      hide PatchedAt;
      if s.target.None? {
        FirstDefinitionFirst(from, images, image);
        PatchedSkip(from, images, image, cacheBase, s.patches, at);
      } else {
        var target := s.target.value;
        FirstDefinitionSnoc(from, images, image, target);
        hide FirstDefinition;
        forall t | Redirected(from, all, |images|, t) ensures t == target {
          FirstDefinitionOnce(from, images, t, target);
        }
        if Patchable(image) && image.mh != target.foundInImage {
          var patch := PatchFor(cacheBase, image, target);
          assert PatchOf(from, all, cacheBase, patch, |images|);
          PatchedSnoc(from, images, image, cacheBase, s.patches, at, patch);
          at' := at + [|images|];
        } else {
          PatchedSkip(from, images, image, cacheBase, s.patches, at);
        }
      }
    }
  }

  /** The listed images stand at these places, in load order, and every eligible one is listed. */
  ghost predicate StandAt(from: MachHeader, images: seq<Image>, definers: seq<Image>, at: seq<nat>)
  {
    && |at| == |definers|
    && (forall i, j :: 0 <= i < j < |at| ==> at[i] < at[j])
    && (forall i :: 0 <= i < |at| ==> at[i] < |images| && definers[i] == images[at[i]])
    && (forall q: nat :: q < |images| && images[q].hasWeakDefs && (images[q].hidden ==> from == images[q].mh)
                         && images[q].found.Some? && images[q].found.value.foundInImage == images[q].mh ==>
          exists i :: 0 <= i < |at| && at[i] == q)
  }

  lemma StandSnoc(from: MachHeader, images: seq<Image>, image: Image, definers: seq<Image>, at: seq<nat>)
    requires StandAt(from, images, definers, at)
    ensures if Eligible(from, image) then StandAt(from, images + [image], definers + [image], at + [|images|])
            else StandAt(from, images + [image], definers, at)
  {
    var all, at' := images + [image], at + [|images|];
    assert forall q :: 0 <= q < |images| ==> all[q] == images[q];
    assert forall i :: 0 <= i < |at| ==> at'[i] == at[i];
    assert at'[|at|] == |images|;
  }

  /** The definers are the eligible images, in load order and all of them. */
  lemma {:induction false} DefinersPlaces(from: MachHeader, images: seq<Image>) returns (at: seq<nat>)
    ensures StandAt(from, images, Definers(from, images), at)
  {
    if images == [] {
      at := [];
    } else {
      hide StandAt;
      var n := |images| - 1;
      at := DefinersPlaces(from, images[..n]);
      StandSnoc(from, images[..n], images[n], Definers(from, images[..n]), at);
      assert images == images[..n] + [images[n]];
      if Eligible(from, images[n]) { at := at + [n]; }
    }
  }

  /**
   * The patches send every cached definition but the chosen one to the chosen one, and nothing else,
   * if and only if the chosen one is the first or no definition up to it can be patched.
   */
  lemma RedirectedExactly(from: MachHeader, images: seq<Image>, cacheBase: nat, patches: seq<Patch>, at: seq<nat>,
                          target: FixupTarget, k: nat)
    requires k < |images| && FirstAt(from, images, target, k)
    requires forall i, j :: 0 <= i < j < |images| ==> images[i].mh != images[j].mh
    requires PatchedAt(from, images, cacheBase, patches, at)
    ensures ((forall i :: 0 <= i < |patches| ==> patches[i].replacement == target && at[i] != k)
             && (forall q: nat :: q < |images| && q != k && Eligible(from, images[q]) && Patchable(images[q]) ==>
                   exists i :: 0 <= i < |at| && at[i] == q))
            <==> ((forall j :: 0 <= j < k ==> !Eligible(from, images[j]))
                  || forall j :: 0 <= j <= k && Eligible(from, images[j]) ==> !Patchable(images[j]))
  {
    PatchedBehind(from, images, cacheBase, patches, at, target, k);
    var _ := WalkPlaces(from, images[..k], cacheBase);
    if first :| FirstDefinition(from, images[..k], first) {
      var f :| 0 <= f < k && FirstAt(from, images[..k], first, f);
      assert Eligible(from, images[f]) && first.isWeakDef && !target.isWeakDef;
      assert forall j :: 0 <= j < f ==> images[..k][j] == images[j];
      if j: nat :| j <= k && Eligible(from, images[j]) && Patchable(images[j]) {
        PatchedWrong(from, images, cacheBase, patches, at, target, k, first, f, j);
      }
    } else {
      assert forall j :: 0 <= j < k ==> images[..k][j] == images[j];
      forall i | 0 <= i < |at| ensures k < at[i] {
        assert PatchOf(from, images, cacheBase, patches[i], at[i]);
        NotBeforeFirst(from, images, at[i], patches[i].replacement, k);
      }
    }
  }

  /** Behind the chosen definition all is as it should be; up to it only what can be patched has a patch. */
  lemma PatchedBehind(from: MachHeader, images: seq<Image>, cacheBase: nat, patches: seq<Patch>, at: seq<nat>,
                      target: FixupTarget, k: nat)
    requires k < |images| && FirstAt(from, images, target, k)
    requires forall i, j :: 0 <= i < j < |images| ==> images[i].mh != images[j].mh
    requires PatchedAt(from, images, cacheBase, patches, at)
    ensures forall q: nat :: k < q < |images| && Eligible(from, images[q]) && Patchable(images[q]) ==>
              exists i :: 0 <= i < |at| && at[i] == q
    ensures forall i :: 0 <= i < |at| && k < at[i] ==> patches[i].replacement == target
    ensures forall i :: 0 <= i < |at| ==>
              at[i] < |images| && Eligible(from, images[at[i]]) && Patchable(images[at[i]])
  {
    forall q: nat | k < q < |images|
      ensures FirstDefinition(from, images[..q], target)
    {
      FirstPrefix(from, images, target, k, q);
    }
    forall q: nat | k < q < |images| && Eligible(from, images[q]) && Patchable(images[q])
      ensures exists i :: 0 <= i < |at| && at[i] == q
    {
      assert Redirected(from, images, q, target);
    }
    forall i | 0 <= i < |at|
      ensures at[i] < |images| && Eligible(from, images[at[i]]) && Patchable(images[at[i]])
      ensures k < at[i] ==> patches[i].replacement == target
    {
      assert PatchOf(from, images, cacheBase, patches[i], at[i]);
      if k < at[i] { FirstDefinitionOnce(from, images[..at[i]], target, patches[i].replacement); }
    }
  }

  lemma FirstPrefix(from: MachHeader, images: seq<Image>, target: FixupTarget, k: nat, q: nat)
    requires k < q <= |images| && FirstAt(from, images, target, k)
    ensures FirstDefinition(from, images[..q], target)
  {
    assert forall j :: 0 <= j < q ==> images[..q][j] == images[j];
    assert FirstAt(from, images[..q], target, k);
  }

  lemma NotBeforeFirst(from: MachHeader, images: seq<Image>, q: nat, target: FixupTarget, k: nat)
    requires Redirected(from, images, q, target)
    requires forall j :: 0 <= j < k && j < |images| ==> !Eligible(from, images[j])
    ensures k < q
  {
    var j :| 0 <= j < q && FirstAt(from, images[..q], target, j);
    assert images[..q][j] == images[j];
  }

  /** A definition up to the replacing one that can be patched has no patch, or one to the replaced first. */
  lemma PatchedWrong(from: MachHeader, images: seq<Image>, cacheBase: nat, patches: seq<Patch>, at: seq<nat>,
                     target: FixupTarget, k: nat, first: FixupTarget, f: nat, j: nat)
    requires f < k < |images| && FirstAt(from, images[..k], first, f) && first != target
    requires forall i, j :: 0 <= i < j < |images| ==> images[i].mh != images[j].mh
    requires PatchedAt(from, images, cacheBase, patches, at)
    requires first.isWeakDef
    requires j <= k && Eligible(from, images[j]) && Patchable(images[j])
    ensures (j == f && forall i :: 0 <= i < |at| ==> at[i] != j)
            || exists i :: 0 <= i < |at| && at[i] == j && patches[i].replacement != target
  {
    assert forall j :: 0 <= j < k ==> images[..k][j] == images[j];
    if j == f {
      forall i | 0 <= i < |at| ensures at[i] != j {
        assert PatchOf(from, images, cacheBase, patches[i], at[i]);
        NotBeforeFirst(from, images, at[i], patches[i].replacement, f);
      }
    } else {
      FirstPrefix(from, images[..k], first, f, j);
      assert images[..k][..j] == images[..j];
      assert Redirected(from, images, j, first);
      var i :| 0 <= i < |at| && at[i] == j;
      assert PatchOf(from, images, cacheBase, patches[i], at[i]);
      FirstDefinitionOnce(from, images[..j], first, patches[i].replacement);
    }
  }

  /** Looks a weak symbol up in all images in load order. */
  method FromImageWeakDefLookup(from: MachHeader, images: seq<Image>, cacheBase: nat)
    returns (foundImpl: bool, target: Option<FixupTarget>, patches: seq<Patch>)
    ensures foundImpl <==> target.Some?
    ensures State(target, patches) == Walk(cacheBase, Definers(from, images))
    ensures target == None <==>
              forall k :: 0 <= k < |images| ==>
                !(images[k].hasWeakDefs && (images[k].hidden ==> from == images[k].mh)
                  && images[k].found.Some? && images[k].found.value.foundInImage == images[k].mh)
    ensures target.Some? ==> FirstDefinition(from, images, target.value)
    ensures exists at :: PatchedAt(from, images, cacheBase, patches, at)
  {
    ghost var at := WalkPlaces(from, images, cacheBase);
    hide FirstDefinition, PatchedAt;
    foundImpl, target, patches := false, None, [];
    var i := 0;
    while i < |images|
      invariant 0 <= i <= |images|
      invariant foundImpl <==> target.Some?
      invariant State(target, patches) == Walk(cacheBase, Definers(from, images[..i]))
    {
      var image := images[i];
      assert images[..i + 1][..i] == images[..i];
      i := i + 1;
      if !image.hasWeakDefs { continue; }
      if image.hidden && from != image.mh { continue; }
      if image.found.None? { continue; }
      var tempTarget := image.found.value;
      if image.mh != tempTarget.foundInImage { continue; }
      WalkSnoc(cacheBase, Definers(from, images[..i - 1]), image);
      if foundImpl && image.inDyldCache && image.mh != target.value.foundInImage {
        if image.cacheIndex.Some? {
          patches := patches + [PatchFor(cacheBase, image, target.value)];
        }
      }
      if !foundImpl {
        target, foundImpl := Some(tempTarget), true;
      } else if target.value.isWeakDef && !tempTarget.isWeakDef {
        target := Some(tempTarget);
      }
    }
    assert images[..i] == images;
  }

  /** Over every load order the result is the first non-weak definition, otherwise the first one. */
  lemma {:induction false} ChosenDefinition(cacheBase: nat, definers: seq<Image>)
    requires forall d :: d in definers ==> d.found.Some?
    ensures definers == [] <==> Walk(cacheBase, definers).target == None
    ensures forall k: nat :: IsChosen(definers, k) ==> Walk(cacheBase, definers).target == definers[k].found
    ensures definers != [] ==> exists k: nat :: IsChosen(definers, k)
  {
    if definers != [] {
      var before := definers[..|definers| - 1];
      var last := |definers| - 1;
      ChosenDefinition(cacheBase, before);
      if before == [] {
        assert IsChosen(definers, 0);
      } else {
        var k: nat :| IsChosen(before, k);
        assert Walk(cacheBase, before).target == before[k].found;
        var k' := if before[k].found.value.isWeakDef && !definers[last].found.value.isWeakDef then last else k;
        assert IsChosen(definers, k');
        forall j: nat | IsChosen(definers, j)
          ensures j == k'
        {
          ChosenOnce(definers, j, k');
        }
      }
    }
  }

  lemma ChosenOnce(definers: seq<Image>, j: nat, k: nat)
    requires forall d :: d in definers ==> d.found.Some?
    requires IsChosen(definers, j) && IsChosen(definers, k)
    ensures j == k
  {
  }

  ghost predicate DistinctImages(definers: seq<Image>)
  {
    forall i, j :: 0 <= i < j < |definers| ==> definers[i].mh != definers[j].mh
  }

  ghost predicate SelfDefined(definers: seq<Image>)
  {
    forall d :: d in definers ==> d.found.Some? && d.found.value.foundInImage == d.mh
  }

  /** As long as the first definition stays the target, the patches are the wanted ones. */
  lemma {:induction false} PatchesWhileFirst(cacheBase: nat, definers: seq<Image>)
    requires SelfDefined(definers) && IsChosen(definers, 0)
    ensures Walk(cacheBase, definers) ==
              State(definers[0].found, Wanted(cacheBase, definers, definers[0].found.value))
  {
    var before := definers[..|definers| - 1];
    if before != [] {
      assert IsChosen(before, 0);
      PatchesWhileFirst(cacheBase, before);
    }
  }

  /** Behind the chosen definition every patch is a wanted one. */
  lemma {:induction false} PatchesAfterChosen(cacheBase: nat, definers: seq<Image>, k: nat)
    returns (rest: seq<Patch>)
    requires SelfDefined(definers) && IsChosen(definers, k)
    ensures Walk(cacheBase, definers).patches == Walk(cacheBase, definers[..k + 1]).patches + rest
    ensures var target := definers[k].found.value;
            Wanted(cacheBase, definers, target) == Wanted(cacheBase, definers[..k + 1], target) + rest
  {
    var target := definers[k].found.value;
    var before := definers[..|definers| - 1];
    if k + 1 == |definers| {
      assert definers[..k + 1] == definers;
      rest := [];
    } else {
      assert before[..k + 1] == definers[..k + 1];
      assert IsChosen(before, k);
      var rest' := PatchesAfterChosen(cacheBase, before, k);
      ChosenDefinition(cacheBase, before);
      var last := definers[|definers| - 1];
      var more := if Patchable(last) && last.mh != target.foundInImage then [PatchFor(cacheBase, last, target)] else [];
      rest := rest' + more;
      assert Walk(cacheBase, definers).patches == Walk(cacheBase, before).patches + more;
      assert Wanted(cacheBase, definers, target) == Wanted(cacheBase, before, target) + more;
    }
  }

  /** A target that replaced the first definition: everything patched so far went to the first one. */
  lemma PatchesAtSwitch(cacheBase: nat, definers: seq<Image>, k: nat)
    requires SelfDefined(definers) && DistinctImages(definers) && 0 < k && IsChosen(definers, k)
    ensures var first := definers[0].found.value;
            Walk(cacheBase, definers[..k + 1]).patches == Wanted(cacheBase, definers[..k + 1], first)
  {
    var before := definers[..k];
    assert IsChosen(before, 0);
    PatchesWhileFirst(cacheBase, before);
    assert definers[..k + 1] == before + [definers[k]];
    WalkSnoc(cacheBase, before, definers[k]);
    assert (before + [definers[k]])[..k] == before;
  }

  /** Nothing is wanted exactly when nothing but the target's own image can be patched. */
  lemma {:induction false} WantedNothing(cacheBase: nat, definers: seq<Image>, target: FixupTarget)
    requires SelfDefined(definers)
    ensures Wanted(cacheBase, definers, target) == [] <==>
            forall i :: 0 <= i < |definers| && definers[i].mh != target.foundInImage ==> !Patchable(definers[i])
  {
    if definers != [] {
      WantedNothing(cacheBase, definers[..|definers| - 1], target);
      var last := |definers| - 1;
      assert forall i :: 0 <= i < last ==> definers[..last][i] == definers[i];
    }
  }

  /**
   * The patches redirect every cached definition, other than the target's own, to the final target and
   * redirect nothing else, if and only if the first definition found is never replaced, or no
   * definition up to the one that replaced it can be patched.
   */
  lemma PatchesExactly(cacheBase: nat, definers: seq<Image>, k: nat)
    requires SelfDefined(definers) && DistinctImages(definers) && IsChosen(definers, k)
    ensures Walk(cacheBase, definers).target == definers[k].found
    ensures Walk(cacheBase, definers).patches == Wanted(cacheBase, definers, definers[k].found.value) <==>
            (k == 0 || forall i :: 0 <= i <= k ==> !Patchable(definers[i]))
  {
    ChosenDefinition(cacheBase, definers);
    if k == 0 {
      PatchesWhileFirst(cacheBase, definers);
    } else {
      var first, target := definers[0].found.value, definers[k].found.value;
      var upTo := definers[..k + 1];
      var rest := PatchesAfterChosen(cacheBase, definers, k);
      PatchesAtSwitch(cacheBase, definers, k);
      WantedNothing(cacheBase, upTo, first);
      WantedNothing(cacheBase, upTo, target);
      DifferentTargets(Wanted(cacheBase, upTo, first), Wanted(cacheBase, upTo, target), first, target);
      assert upTo[0] == definers[0] && upTo[k] == definers[k];
      assert forall i :: 0 <= i <= k ==> upTo[i] == definers[i];
      SameEnd(Walk(cacheBase, upTo).patches, Wanted(cacheBase, upTo, target), rest);
    }
  }

  lemma DifferentTargets(a: seq<Patch>, b: seq<Patch>, s: FixupTarget, t: FixupTarget)
    requires s != t && (forall p :: p in a ==> p.replacement == s) && forall p :: p in b ==> p.replacement == t
    ensures a == b <==> a == [] && b == []
  {
    if a != [] && b != [] {
      assert a[0] in a && b[0] in b;
    }
  }

  lemma SameEnd(a: seq<Patch>, b: seq<Patch>, rest: seq<Patch>)
    ensures a + rest == b + rest <==> a == b
  {
    if a + rest == b + rest {
      assert |a| == |b|;
      assert a == (a + rest)[..|a|] == (b + rest)[..|a|] == b;
    }
  }

  /** A weak definition in the cache, then a strong one: the weak one stays, and the strong one is sent to it. */
  lemma ReplacedFirstNotPatched(cacheBase: nat, weak: Image, strong: Image)
    requires weak.found.Some? && weak.found.value == FixupTarget(weak.mh, weak.found.value.offsetInImage, true)
    requires strong.found.Some? && strong.found.value == FixupTarget(strong.mh, strong.found.value.offsetInImage, false)
    requires weak.mh != strong.mh && Patchable(weak) && Patchable(strong)
    ensures Walk(cacheBase, [weak, strong]) ==
              State(strong.found, [PatchFor(cacheBase, strong, weak.found.value)])
  {
    WalkSnoc(cacheBase, [], weak);
    WalkSnoc(cacheBase, [weak], strong);
    assert [] + [weak] == [weak] && [weak] + [strong] == [weak, strong];
  }
}
