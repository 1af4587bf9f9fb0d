/** Which images need a new closure because something they depend on does. */
module InvalidateRoots {
  import opened Wrappers
  import opened ImageGraph

  /** Image `u` has a present link of any kind to image `v`. */
  predicate DependsOn(g: Graph, u: nat, v: nat)
  {
    LinksTo(g, u, v, false) || LinksTo(g, u, v, true)
  }

  /** An image that is not yet initialized is in the set once one of its dependents is. */
  ghost predicate Propagated(g: Graph, alreadyInited: nat, s: set<nat>)
  {
    forall u, v :: alreadyInited <= u < |g| && v in s && DependsOn(g, u, v) ==> u in s
  }

  /** The least set that contains `start` and is propagated. */
  ghost predicate IsLeastPropagated(g: Graph, alreadyInited: nat, start: set<nat>, s: set<nat>)
  {
    && start <= s && Propagated(g, alreadyInited, s)
    && forall t: set<nat> :: start <= t && Propagated(g, alreadyInited, t) ==> s <= t
  }

  /** Nothing beyond what every propagated set around `start` contains. */
  ghost predicate Within(g: Graph, alreadyInited: nat, start: set<nat>, s: set<nat>)
  {
    forall t: set<nat> :: start <= t && Propagated(g, alreadyInited, t) ==> s <= t
  }

  function Flagged(flags: seq<bool>): (s: set<nat>)
    ensures forall k: nat :: k in s <==> k < |flags| && flags[k]
  {
    set k: nat | k < |flags| && flags[k]
  }

  lemma FlagOne(flags: seq<bool>, k: nat)
    requires k < |flags|
    ensures Flagged(flags[k := true]) == Flagged(flags) + {k}
    ensures !flags[k] ==> |Flagged(flags[k := true])| == |Flagged(flags)| + 1
  {
    assert Flagged(flags[k := true]) == Flagged(flags) + {k};
  }

  lemma {:induction false} FlaggedBounded(flags: seq<bool>)
    ensures |Flagged(flags)| <= |flags|
  {
    if flags == [] {
      assert Flagged(flags) == {};
    } else {
      var n := |flags| - 1;
      FlaggedBounded(flags[..n]);
      assert Flagged(flags) == Flagged(flags[..n]) + if flags[n] then {n} else {};
    }
  }

  lemma Superset(s: set<nat>, t: set<nat>)
    requires s <= t
    ensures |s| <= |t| && (|s| == |t| ==> s == t)
  {
    assert t == s + (t - s);
    assert |t| == |s| + |t - s|;
  }

  /** Flagging an image that has a flagged dependent stays within. */
  lemma WithinStep(g: Graph, alreadyInited: nat, start: set<nat>, s: set<nat>, u: nat, v: nat)
    requires Within(g, alreadyInited, start, s) && alreadyInited <= u < |g| && v in s && DependsOn(g, u, v)
    ensures Within(g, alreadyInited, start, s + {u})
  {
    hide DependsOn;
  }

  lemma LinkDepends(g: Graph, u: nat, k: nat)
    requires Linked(g) && u < |g| && k < |g[u].dependents|
    requires g[u].dependents[k].imageNum != MISSING_WEAK_LINKED_IMAGE
    ensures FindLoaded(g, g[u].dependents[k].imageNum) < |g|
    ensures DependsOn(g, u, FindLoaded(g, g[u].dependents[k].imageNum))
  {
    var d := g[u].dependents[k];
    assert Resolves(g, d);
    assert IsLink(g, d, FindLoaded(g, d.imageNum), d.kind.Upward?);
  }

  /** None of the first `n` dependents of `u` is flagged. */
  predicate NoneFlagged(g: Graph, u: nat, n: nat, flags: seq<bool>)
    requires |flags| == |g| && u < |g| && n <= |g[u].dependents|
  {
    forall k :: 0 <= k < n && g[u].dependents[k].imageNum != MISSING_WEAK_LINKED_IMAGE ==>
      var v := FindLoaded(g, g[u].dependents[k].imageNum);
      v == |g| || !flags[v]
  }

  /** After a pass over unchanged flags that flags nothing, the flags are propagated. */
  lemma QuietPass(g: Graph, alreadyInited: nat, flags: seq<bool>)
    requires |flags| == |g|
    requires forall u :: alreadyInited <= u < |g| && !flags[u] ==> NoneFlagged(g, u, |g[u].dependents|, flags)
    ensures Propagated(g, alreadyInited, Flagged(flags))
  {
    forall u, v | alreadyInited <= u < |g| && v in Flagged(flags) && DependsOn(g, u, v)
      ensures flags[u]
    {
      var k, upward :| 0 <= k < |g[u].dependents| && IsLink(g, g[u].dependents[k], v, upward);
    }
  }

  class ClosureBuilder {
    const loadedImages: Graph
    const alreadyInitedIndex: nat
    /** One flag for each loaded image. */
    const mustBuildClosure: array<bool>
    var foundDyldCacheRoots: bool

    constructor (images: Graph, alreadyInited: nat, mustBuild: seq<bool>)
      requires |mustBuild| == |images|
      ensures loadedImages == images && alreadyInitedIndex == alreadyInited
      ensures mustBuildClosure[..] == mustBuild && fresh(mustBuildClosure) && !foundDyldCacheRoots
    {
      loadedImages, alreadyInitedIndex, foundDyldCacheRoots := images, alreadyInited, false;
      mustBuildClosure := new bool[|mustBuild|](k requires 0 <= k < |mustBuild| => mustBuild[k]);
    }

    /** Flags an image if one of its dependents is flagged. */
    method InvalidateImage(u: nat, ghost start: set<nat>) returns (madeChange: bool)
      requires Linked(loadedImages) && mustBuildClosure.Length == |loadedImages|
      requires alreadyInitedIndex <= u < |loadedImages| && !mustBuildClosure[u]
      requires Within(loadedImages, alreadyInitedIndex, start, Flagged(mustBuildClosure[..]))
      modifies mustBuildClosure
      ensures mustBuildClosure[..] == old(mustBuildClosure[..])[u := madeChange]
      ensures Within(loadedImages, alreadyInitedIndex, start, Flagged(mustBuildClosure[..]))
      ensures !madeChange ==>
        NoneFlagged(loadedImages, u, |loadedImages[u].dependents|, mustBuildClosure[..])
      ensures madeChange <==>
        exists k :: 0 <= k < |loadedImages[u].dependents| && loadedImages[u].dependents[k].imageNum != 0x0FFF_FFFF
          && FindLoaded(loadedImages, loadedImages[u].dependents[k].imageNum) < |loadedImages|
          && old(mustBuildClosure[..])[FindLoaded(loadedImages, loadedImages[u].dependents[k].imageNum)]
    {
      hide Within, DependsOn;
      madeChange := false;
      var dependents := loadedImages[u].dependents;
      var k := 0;
      while k < |dependents|
        invariant 0 <= k <= |dependents|
        invariant mustBuildClosure[..] == old(mustBuildClosure[..])[u := madeChange]
        invariant Within(loadedImages, alreadyInitedIndex, start, Flagged(mustBuildClosure[..]))
        invariant !madeChange ==> NoneFlagged(loadedImages, u, k, mustBuildClosure[..])
        invariant madeChange ==>
          exists j :: 0 <= j < k && dependents[j].imageNum != 0x0FFF_FFFF
            && FindLoaded(loadedImages, dependents[j].imageNum) < |loadedImages|
            && old(mustBuildClosure[..])[FindLoaded(loadedImages, dependents[j].imageNum)]
      {
        var num := dependents[k].imageNum;
        if num != MISSING_WEAK_LINKED_IMAGE {
          LinkDepends(loadedImages, u, k);
          var depImage := FindLoaded(loadedImages, num);
          if mustBuildClosure[depImage] {
            ghost var before := mustBuildClosure[..];
            WithinStep(loadedImages, alreadyInitedIndex, start, Flagged(before), u, depImage);
            FlagOne(before, u);
            mustBuildClosure[u] := true;
            madeChange := true;
            assert mustBuildClosure[..] == before[u := true];
          }
        }
        k := k + 1;
      }
    }

    /** One pass over the images not yet initialized. */
    method InvalidatePass(ghost start: set<nat>) returns (madeChange: bool)
      requires Linked(loadedImages) && mustBuildClosure.Length == |loadedImages|
      requires alreadyInitedIndex <= |loadedImages|
      requires Within(loadedImages, alreadyInitedIndex, start, Flagged(mustBuildClosure[..]))
      modifies mustBuildClosure
      ensures Within(loadedImages, alreadyInitedIndex, start, Flagged(mustBuildClosure[..]))
      ensures Flagged(old(mustBuildClosure[..])) <= Flagged(mustBuildClosure[..])
      ensures madeChange <==> mustBuildClosure[..] != old(mustBuildClosure[..])
      ensures madeChange ==> |Flagged(mustBuildClosure[..])| > |Flagged(old(mustBuildClosure[..]))|
      ensures !madeChange ==> Propagated(loadedImages, alreadyInitedIndex, Flagged(mustBuildClosure[..]))
    {
      hide Within, Propagated, NoneFlagged;
      ghost var before := mustBuildClosure[..];
      madeChange := false;
      var u := alreadyInitedIndex;
      while u != |loadedImages|
        invariant alreadyInitedIndex <= u <= |loadedImages|
        invariant Within(loadedImages, alreadyInitedIndex, start, Flagged(mustBuildClosure[..]))
        invariant Flagged(before) <= Flagged(mustBuildClosure[..])
        invariant madeChange <==> mustBuildClosure[..] != before
        invariant madeChange ==> |Flagged(mustBuildClosure[..])| > |Flagged(before)|
        invariant !madeChange ==>
          forall w :: alreadyInitedIndex <= w < u && !before[w] ==>
            NoneFlagged(loadedImages, w, |loadedImages[w].dependents|, before)
      {
        if !mustBuildClosure[u] {
          ghost var flags := mustBuildClosure[..];
          var changed := InvalidateImage(u, start);
          if changed {
            FlagOne(flags, u);
            Superset(Flagged(before), Flagged(flags));
            assert mustBuildClosure[..] == flags[u := true];
            madeChange := true;
            assert mustBuildClosure[u] && !before[u] by { assert !before[u] ==> u !in Flagged(before); }
          } else {
            assert mustBuildClosure[..] == flags;
          }
        }
        u := u + 1;
      }
      if !madeChange {
        QuietPass(loadedImages, alreadyInitedIndex, before);
      }
    }

    /**
     * Passes until nothing changes.  Exactly the images end up flagged that must: the least set around
     * those flagged before in which an image that is not yet initialized follows its dependents.
     */
    method InvalidateInitializerRoots()
      requires Linked(loadedImages) && mustBuildClosure.Length == |loadedImages|
      requires alreadyInitedIndex <= |loadedImages|
      modifies this, mustBuildClosure
      ensures IsLeastPropagated(loadedImages, alreadyInitedIndex,
                                Flagged(old(mustBuildClosure[..])), Flagged(mustBuildClosure[..]))
      ensures foundDyldCacheRoots <==> old(foundDyldCacheRoots) || mustBuildClosure[..] != old(mustBuildClosure[..])
    {
      hide Propagated;
      ghost var start := Flagged(mustBuildClosure[..]);
      while true
        invariant start <= Flagged(mustBuildClosure[..])
        invariant Within(loadedImages, alreadyInitedIndex, start, Flagged(mustBuildClosure[..]))
        invariant foundDyldCacheRoots <==>
                    old(foundDyldCacheRoots) || mustBuildClosure[..] != old(mustBuildClosure[..])
        decreases |loadedImages| - |Flagged(mustBuildClosure[..])|
      {
        ghost var before := mustBuildClosure[..];
        var madeChange := InvalidatePass(start);
        if !madeChange { break; }
        FlaggedBounded(before);
        FlaggedBounded(mustBuildClosure[..]);
        foundDyldCacheRoots := true;
        MoreFlagged(old(mustBuildClosure[..]), before, mustBuildClosure[..]);
      }
    }
  }

  lemma MoreFlagged(first: seq<bool>, before: seq<bool>, after: seq<bool>)
    requires |first| == |before| == |after|
    requires Flagged(first) <= Flagged(before) && |Flagged(before)| < |Flagged(after)|
    ensures after != first
  {
    Superset(Flagged(first), Flagged(before));
  }
}
