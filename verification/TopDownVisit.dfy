/** Visiting the dependents of a loaded image top down, each once, for a handler that never stops. */
module TopDownVisit {
  import opened Wrappers
  import opened ImageGraph
  import opened ImageLookup
  import opened Unloading

  const STACK_CAPACITY: nat := 256

  /** Links that are followed: reported and not upward. */
  predicate Followed(d: LinkedImage) { Reported(d) && !d.kind.Upward? }

  /** Among the first `n` links of image `u`, one is followed to the loaded image `v`. */
  predicate LeadsTo(images: seq<LoadedImage>, u: nat, n: nat, v: nat)
    requires u < |images| && n <= |images[u].dependents|
  {
    v < |images| && exists k :: 0 <= k < n && Followed(images[u].dependents[k]) &&
                                Locate(images, Key, images[u].dependents[k].imageNum) == v
  }

  predicate Edge(images: seq<LoadedImage>, u: nat, v: nat)
  {
    u < |images| && LeadsTo(images, u, |images[u].dependents|, v)
  }

  /** An edge is a link, not upward and not a missing weak one, to the first image with its number or overriding it. */
  lemma EdgeExactly(images: seq<LoadedImage>, u: nat, v: nat)
    requires u < |images| && v < |images|
    ensures Edge(images, u, v) <==>
            exists k :: 0 <= k < |images[u].dependents| && Answers(images, images[u].dependents[k].imageNum, v)
              && images[u].dependents[k].kind != Upward
              && !(images[u].dependents[k].imageNum == 0x0FFF_FFFF && images[u].dependents[k].kind == Weak)
  {
    var deps := images[u].dependents;
    forall k | 0 <= k < |deps|
      ensures Locate(images, Key, deps[k].imageNum) == v <==> Answers(images, deps[k].imageNum, v)
    {
      LocateFirst(images, Key, deps[k].imageNum);
    }
    if Edge(images, u, v) {
      var k :| 0 <= k < |deps| && Followed(deps[k]) && Locate(images, Key, deps[k].imageNum) == v;
      assert Answers(images, deps[k].imageNum, v);
    }
    if k :| 0 <= k < |deps| && Answers(images, deps[k].imageNum, v) && Followed(deps[k]) {
      assert LeadsTo(images, u, |deps|, v);
    }
  }

  /** The image is the first with the number as its own or as the one it overrides. */
  predicate Answers(images: seq<LoadedImage>, num: ImageNum, v: nat)
    requires v < |images|
  {
    && (images[v].imageNum == num || images[v].overrideOf == Some(num))
    && forall j :: 0 <= j < v ==> images[j].imageNum != num && images[j].overrideOf != Some(num)
  }

  ghost predicate Closed(images: seq<LoadedImage>, s: set<nat>)
  {
    forall u, v :: u in s && Edge(images, u, v) ==> v in s
  }

  /** The images reachable from `start` by links that are followed: the least closed set around it. */
  ghost predicate IsReachable(images: seq<LoadedImage>, start: nat, s: set<nat>)
  {
    && start in s && Closed(images, s)
    && forall t: set<nat> :: start in t && Closed(images, t) ==> s <= t
  }

  /** Numbers are unique, and nothing overrides a number that is loaded itself. */
  predicate Consistent(images: seq<LoadedImage>)
  {
    && (forall j, k :: 0 <= j < k < |images| ==> images[j].imageNum != images[k].imageNum)
    && (forall j, k :: 0 <= j < |images| && 0 <= k < |images| ==> images[j].overrideOf != Some(images[k].imageNum))
  }

  /** The loaded images that the followed links of an image lead to. */
  function Targets(images: seq<LoadedImage>, u: nat): (s: set<nat>)
    ensures forall v: nat :: v in s <==> v < |images| && Edge(images, u, v)
  {
    set v: nat | v < |images| && Edge(images, u, v)
  }

  /** More of them than the stack array of one level holds. */
  ghost predicate TooWide(images: seq<LoadedImage>)
  {
    exists u :: |Targets(images, u)| > STACK_CAPACITY
  }

  predicate NoOverrides(images: seq<LoadedImage>)
  {
    forall k :: 0 <= k < |images| ==> images[k].overrideOf == None
  }

  predicate Distinct(s: seq<nat>)
  {
    forall i, j :: 0 <= i < j < |s| ==> s[i] != s[j]
  }

  lemma BelowCount(s: set<nat>, n: nat)
    requires forall k :: k in s ==> k < n
    ensures |s| <= n
  {
    if n == 0 {
      assert s == {};
    } else {
      BelowCount(s - {n - 1}, n - 1);
    }
  }

  lemma RoomForOneMore(s: set<nat>, k: nat, n: nat)
    requires (forall j :: j in s ==> j < n) && k < n && k !in s
    ensures |s| + 1 == |s + {k}| <= n
  {
    BelowCount(s + {k}, n);
  }

  lemma Strictly(s: set<nat>, t: set<nat>, k: nat)
    requires s <= t && k in t - s
    ensures |s| < |t|
  {
    assert t == s + (t - s) && |t - s| > 0;
  }

  lemma LinkLeads(images: seq<LoadedImage>, u: nat, i: nat)
    requires u < |images| && i < |images[u].dependents|
    ensures var d, k := images[u].dependents[i], Locate(images, Key, images[u].dependents[i].imageNum);
            && (Followed(d) && k < |images| ==> Edge(images, u, k))
            && forall v :: LeadsTo(images, u, i + 1, v) ==>
                 LeadsTo(images, u, i, v) || (Followed(d) && v == k < |images|)
  {
  }

  lemma OwnNumber(images: seq<LoadedImage>, k: nat)
    requires Consistent(images) && k < |images|
    ensures Locate(images, Key, images[k].imageNum) == k
  {
  }

  /** These are the own numbers of the images seen. */
  ghost predicate Tracks(images: seq<LoadedImage>, nums: seq<ImageNum>, seen: set<nat>)
  {
    && |nums| == |seen| <= |images|
    && (forall k :: k in seen ==> k < |images|)
    && (forall k :: 0 <= k < |images| ==> (images[k].imageNum in nums <==> k in seen))
    && (forall num :: num in nums ==> exists k :: k in seen && images[k].imageNum == num)
  }

  lemma TracksOneMore(images: seq<LoadedImage>, nums: seq<ImageNum>, seen: set<nat>, k: nat)
    requires Consistent(images) && Tracks(images, nums, seen) && k < |images| && k !in seen
    ensures |nums| < |images| && Tracks(images, nums + [images[k].imageNum], seen + {k})
  {
    RoomForOneMore(seen, k, |images|);
    var nums', seen' := nums + [images[k].imageNum], seen + {k};
    forall j | 0 <= j < |images|
      ensures images[j].imageNum in nums' <==> j in seen'
    {
      assert images[j].imageNum == images[k].imageNum ==> j == k;
    }
    forall num | num in nums'
      ensures exists j :: j in seen' && images[j].imageNum == num
    {
      if num in nums {
        var j :| j in seen && images[j].imageNum == num;
        assert j in seen';
      } else {
        assert k in seen';
      }
    }
  }

  /** A number already visited belongs to the image it leads to. */
  lemma TrackedNumber(images: seq<LoadedImage>, nums: seq<ImageNum>, seen: set<nat>, num: ImageNum)
    requires Consistent(images) && Tracks(images, nums, seen)
    ensures num in nums ==> Locate(images, Key, num) in seen
    ensures num !in nums && NoOverrides(images) ==> Locate(images, Key, num) !in seen
  {
    if num in nums {
      var j :| j in seen && images[j].imageNum == num;
      OwnNumber(images, j);
    }
  }

  /** The handler was called on exactly the images seen, and only once unless there are overrides. */
  ghost predicate Handled(images: seq<LoadedImage>, handled: seq<nat>, seen: set<nat>)
  {
    && (forall k :: k in handled <==> k in seen)
    && (NoOverrides(images) ==> Distinct(handled))
    && TopDown(images, handled)
  }

  predicate LinkedBefore(images: seq<LoadedImage>, handled: seq<nat>, i: nat)
    requires i < |handled|
  {
    exists j :: 0 <= j < i && Edge(images, handled[j], handled[i])
  }

  /** Whoever is handled after the first is linked from one handled earlier. */
  predicate TopDown(images: seq<LoadedImage>, handled: seq<nat>)
  {
    forall i :: 0 < i < |handled| ==> LinkedBefore(images, handled, i)
  }

  lemma TopDownOneMore(images: seq<LoadedImage>, handled: seq<nat>, node: nat, k: nat)
    requires TopDown(images, handled) && (handled == [] || (node in handled && Edge(images, node, k)))
    ensures TopDown(images, handled + [k])
  {
    hide Edge;
    var handled' := handled + [k];
    forall i | 0 < i < |handled'|
      ensures LinkedBefore(images, handled', i)
    {
      if i < |handled| {
        assert LinkedBefore(images, handled, i);
        var j :| 0 <= j < i && Edge(images, handled[j], handled[i]);
        assert Edge(images, handled'[j], handled'[i]);
      } else {
        var j :| 0 <= j < |handled| && handled[j] == node;
        assert Edge(images, handled'[j], handled'[i]);
      }
    }
  }

  lemma HandledOneMore(images: seq<LoadedImage>, handled: seq<nat>, seen: set<nat>, node: nat, k: nat)
    requires Handled(images, handled, seen) && (NoOverrides(images) ==> k !in seen)
    requires handled == [] || (node in seen && Edge(images, node, k))
    ensures Handled(images, handled + [k], seen + {k})
  {
    hide NoOverrides, TopDown, Edge;
    TopDownOneMore(images, handled, node, k);
  }

  lemma HandledTopDown(images: seq<LoadedImage>, handled: seq<nat>, seen: set<nat>)
    requires Handled(images, handled, seen)
    ensures TopDown(images, handled)
  {
  }

  lemma NothingHandled(images: seq<LoadedImage>, handled: seq<nat>, seen: set<nat>)
    requires Handled(images, handled, seen)
    ensures handled == [] || handled[0] in seen
  {
  }

  /** Where every link of these images leads has been seen. */
  ghost predicate Expanded(images: seq<LoadedImage>, s: set<nat>, seen: set<nat>)
  {
    forall u, v :: u in s && Edge(images, u, v) ==> v in seen
  }

  /** Nothing is seen that a closed set around `node` and the images seen before does not contain. */
  ghost predicate Within(images: seq<LoadedImage>, node: nat, before: set<nat>, seen: set<nat>)
  {
    forall t: set<nat> :: node in t && Closed(images, t) ==> seen <= before + t
  }

  /** Direct dependents, then what is reached from one of them. */
  lemma WithinThrough(images: seq<LoadedImage>, node: nat, k: nat, before: set<nat>, middle: set<nat>, after: set<nat>)
    requires Within(images, node, before, middle) && Within(images, k, middle, after)
    requires k in middle - before
    ensures Within(images, node, before, after)
  {
    hide Closed;
    forall t: set<nat> | node in t && Closed(images, t)
      ensures after <= before + t
    {
      assert middle <= before + t;
    }
  }

  lemma ExpandedMore(images: seq<LoadedImage>, s: set<nat>, t: set<nat>, seen: set<nat>, more: set<nat>)
    requires Expanded(images, s, seen) && Expanded(images, t, more) && seen <= more
    ensures Expanded(images, s + t, more)
  {
    hide Edge;
  }

  class Visit {
    const images: seq<LoadedImage>
    /** Numbers visited so far, in an array sized to the loaded images. */
    const visited: array<ImageNum>
    var used: nat
    /** The handler's calls, as indices of loaded images. */
    var handled: seq<nat>
    ghost var seen: set<nat>

    ghost predicate Valid()
      reads this, visited
    {
      && Consistent(images) && visited.Length == |images| && used <= visited.Length
      && Tracks(images, visited[..used], seen)
      && Handled(images, handled, seen)
    }

    constructor (images: seq<LoadedImage>)
      requires Consistent(images)
      ensures Valid() && this.images == images && handled == [] && seen == {} && fresh(visited)
    {
      this.images := images;
      visited := new ImageNum[|images|](_ => 0);
      used, handled, seen := 0, [], {};
    }

    predicate Contains(num: ImageNum)
      requires used <= visited.Length
      reads this, visited
    {
      num in visited[..used]
    }

    /** Adds an image that was not visited; there is always room. */
    method PushBack(k: nat)
      requires Consistent(images) && visited.Length == |images| && used <= visited.Length
      requires Tracks(images, visited[..used], seen) && k < |images| && k !in seen
      modifies this`used, this`seen, visited
      ensures used <= visited.Length && Tracks(images, visited[..used], seen) && seen == old(seen) + {k}
    {
      hide Tracks, Consistent;
      TracksOneMore(images, visited[..used], seen, k);
      ghost var nums := visited[..used];
      assert |nums| == used;
      visited[used] := images[k].imageNum;
      used := used + 1;
      seen := seen + {k};
      assert visited[..used] == nums + [images[k].imageNum];
    }

    /** One link of an image; returns the image to descend into, if any. */
    method VisitDependent(d: LinkedImage, ghost node: nat, ghost i: nat) returns (next: Option<nat>)
      requires Valid() && node in seen && node < |images|
      requires i < |images[node].dependents| && d == images[node].dependents[i]
      modifies this`used, this`handled, this`seen, visited
      ensures Valid() && old(handled) <= handled
      ensures var k := Locate(images, Key, d.imageNum);
              && (Followed(d) && k < |images| ==> seen == old(seen) + {k})
              && (!(Followed(d) && k < |images|) ==> seen == old(seen))
              && next == if Followed(d) && k < |images| && k !in old(seen) then Some(k) else None
    {
      hide Tracks, Handled, Consistent, NoOverrides, Followed, LeadsTo, Edge;
      var k := Locate(images, Key, d.imageNum);
      if !Followed(d) { return None; }
      TrackedNumber(images, visited[..used], seen, d.imageNum);
      if Contains(d.imageNum) {
        assert k in seen && seen == seen + {k};
        SeenLoaded(images, visited[..used], seen, k);
        return None;
      }
      if k == |images| { return None; }
      LinkLeads(images, node, i);
      HandledOneMore(images, handled, seen, node, k);
      handled := handled + [k];
      SeenOwnNumber(images, visited[..used], seen, k);
      if d.imageNum != images[k].imageNum && Contains(images[k].imageNum) {
        assert seen == seen + {k};
        return None;
      }
      PushBack(k);
      return Some(k);
    }

    /** Calls the handler on the direct dependents not yet visited; more of them than the stack array holds
        end the process. */
    method VisitDependents(node: nat) returns (dependentsToRecurse: seq<nat>, overflowed: bool)
      requires Valid() && node in seen
      modifies this`used, this`handled, this`seen, visited
      ensures Valid() && old(seen) <= seen && old(handled) <= handled
      ensures overflowed <==> |Targets(images, node) - old(seen)| > 256
      ensures !overflowed ==>
        && (forall k :: k in dependentsToRecurse <==> k in seen - old(seen))
        && Expanded(images, {node}, seen) && Within(images, node, old(seen), seen)
    {
      hide Tracks, Handled, NoOverrides, Followed, LeadsTo, Within, Targets, Expanded, Lists, Consistent, Edge, LinksSeen;
      ListsNothing(seen - old(seen));
      SeenLoaded(images, visited[..used], seen, node);
      dependentsToRecurse, overflowed := [], false;
      ghost var unvisited := Targets(images, node) - seen;
      var dependents := images[node].dependents;
      var i := 0;
      NoLinksYet(images, node, seen);
      while i < |dependents|
        invariant 0 <= i <= |dependents| && !overflowed
        invariant Valid() && old(seen) <= seen && old(handled) <= handled
        invariant Lists(dependentsToRecurse, seen - old(seen)) && |dependentsToRecurse| <= STACK_CAPACITY
        invariant seen - old(seen) <= unvisited
        invariant LinksSeen(images, node, i, seen)
        invariant Within(images, node, old(seen), seen)
      {
        ghost var before := seen;
        var next := VisitDependent(dependents[i], node, i);
        LinkLeads(images, node, i);
        OneLinkSeen(images, node, i, before, seen);
        LinkWithin(images, node, old(seen), before, seen, Locate(images, Key, dependents[i].imageNum));
        if next.Some? {
          OneMoreNew(old(seen), before, next.value);
          ListsOneMore(dependentsToRecurse, before - old(seen), next.value);
          if |dependentsToRecurse| == STACK_CAPACITY {
            Superset(seen - old(seen), unvisited);
            return dependentsToRecurse, true;
          }
          dependentsToRecurse := dependentsToRecurse + [next.value];
        } else {
          assert seen == before;
        }
        i := i + 1;
      }
      AllExpanded(images, node, seen);
      ListsHolds(dependentsToRecurse, seen - old(seen));
      assert unvisited == seen - old(seen);
    }

    /** Visits the dependents of an image, then theirs; each level marks something new or ends. */
    method BreadthFirstRecurseDependents(node: nat) returns (overflowed: bool)
      requires Valid() && node in seen
      modifies this`used, this`handled, this`seen, visited
      ensures Valid() && old(seen) <= seen && old(handled) <= handled
      ensures overflowed ==> TooWide(images)
      ensures !overflowed ==>
        Expanded(images, seen - old(seen) + {node}, seen) && Within(images, node, old(seen), seen)
      decreases |images| - |seen|, 1
    {
      hide Tracks, Handled, Consistent, Expanded, Within, Targets, TooWide;
      ghost var before := seen;
      var dependentsToRecurse, full := VisitDependents(node);
      if full {
        WideNode(images, node, before);
        return true;
      }
      overflowed := RecurseInto(dependentsToRecurse, node, before);
    }

    /** Recurses on all dependents just visited. */
    method RecurseInto(dependentsToRecurse: seq<nat>, ghost node: nat, ghost before: set<nat>) returns (overflowed: bool)
      requires Valid() && before <= seen && node in before
      requires forall k :: k in dependentsToRecurse <==> k in seen - before
      requires Expanded(images, {node}, seen) && Within(images, node, before, seen)
      modifies this`used, this`handled, this`seen, visited
      ensures Valid() && before <= seen && old(handled) <= handled
      ensures overflowed ==> TooWide(images)
      ensures !overflowed ==>
        Expanded(images, seen - before + {node}, seen) && Within(images, node, before, seen)
      decreases |images| - |before|, 0
    {
      hide Tracks, Handled, Consistent, Expanded, Within, Targets, TooWide;
      ghost var direct := seen;
      ghost var done: set<nat> := {node};
      var j := 0;
      while j < |dependentsToRecurse|
        invariant 0 <= j <= |dependentsToRecurse|
        invariant Valid() && before <= direct <= seen && old(handled) <= handled
        invariant Within(images, node, before, seen) && Expanded(images, done, seen)
        invariant node in done && seen - direct <= done
        invariant forall i :: 0 <= i < j ==> dependentsToRecurse[i] in done
      {
        ghost var k := dependentsToRecurse[j];
        ghost var middle := seen;
        assert k in direct - before;
        Strictly(before, seen, k);
        SeenBounded(images, visited[..used], seen);
        overflowed := BreadthFirstRecurseDependents(dependentsToRecurse[j]);
        if overflowed { return; }
        WithinThrough(images, node, k, before, middle, seen);
        ExpandedMore(images, done, seen - middle + {k}, middle, seen);
        done := done + (seen - middle + {k});
        j := j + 1;
      }
      overflowed := false;
      assert direct - before <= done;
      ExpandedLess(images, seen - before + {node}, done, seen);
    }

    /** The handler is called on exactly the images reachable from the start by links not upward, unless some
        image has more new dependents than a stack array holds. */
    method VisitDependentsTopDown(start: nat) returns (overflowed: bool)
      requires Valid() && seen == {} && start < |images|
      modifies this, visited
      ensures overflowed ==> TooWide(images)
      ensures !overflowed ==> Valid() && IsReachable(images, start, seen)
      ensures handled != [] && handled[0] == start && (!overflowed ==> TopDown(images, handled))
    {
      hide Tracks, Handled, Consistent, Edge, TooWide;
      NothingHandled(images, handled, seen);
      HandledOneMore(images, handled, seen, start, start);
      handled := handled + [start];
      PushBack(start);
      overflowed := BreadthFirstRecurseDependents(start);
      assert seen - {start} + {start} == seen;
      if !overflowed { HandledTopDown(images, handled, seen); }
    }
  }

  lemma Superset(s: set<nat>, t: set<nat>)
    requires s <= t
    ensures |s| <= |t|
  {
    assert t == s + (t - s);
  }

  /** The list holds the members of the set, each once. */
  ghost predicate Lists(s: seq<nat>, t: set<nat>)
  {
    |s| == |t| && forall k :: k in s <==> k in t
  }

  lemma ListsNothing(t: set<nat>)
    requires t == {}
    ensures Lists([], t)
  {
  }

  lemma ListsOneMore(s: seq<nat>, t: set<nat>, k: nat)
    requires Lists(s, t) && k !in t
    ensures Lists(s + [k], t + {k}) && |s| == |t|
  {
  }

  lemma ListsHolds(s: seq<nat>, t: set<nat>)
    requires Lists(s, t)
    ensures |s| == |t| && forall k :: k in s <==> k in t
  {
  }

  lemma ExpandedLess(images: seq<LoadedImage>, s: set<nat>, t: set<nat>, seen: set<nat>)
    requires s <= t && Expanded(images, t, seen)
    ensures Expanded(images, s, seen)
  {
    hide Edge;
  }

  lemma WideNode(images: seq<LoadedImage>, u: nat, before: set<nat>)
    requires |Targets(images, u) - before| > STACK_CAPACITY
    ensures TooWide(images)
  {
    Superset(Targets(images, u) - before, Targets(images, u));
  }

  lemma OneMoreNew(first: set<nat>, before: set<nat>, k: nat)
    requires first <= before && k !in before
    ensures |before + {k} - first| == |before - first| + 1 && before + {k} - first == (before - first) + {k}
  {
    assert before + {k} - first == (before - first) + {k};
  }

  /** Where the first `n` links lead has been seen. */
  ghost predicate LinksSeen(images: seq<LoadedImage>, u: nat, n: nat, seen: set<nat>)
    requires u < |images| && n <= |images[u].dependents|
  {
    forall v :: LeadsTo(images, u, n, v) ==> v in seen
  }

  lemma OneLinkSeen(images: seq<LoadedImage>, u: nat, i: nat, before: set<nat>, seen: set<nat>)
    requires u < |images| && i < |images[u].dependents| && LinksSeen(images, u, i, before) && before <= seen
    requires var d, k := images[u].dependents[i], Locate(images, Key, images[u].dependents[i].imageNum);
             Followed(d) && k < |images| ==> k in seen
    ensures LinksSeen(images, u, i + 1, seen)
  {
    LinkLeads(images, u, i);
  }

  lemma AllExpanded(images: seq<LoadedImage>, node: nat, seen: set<nat>)
    requires node < |images| && LinksSeen(images, node, |images[node].dependents|, seen)
    ensures Expanded(images, {node}, seen) && Targets(images, node) <= seen
  {
  }

  lemma SeenLoaded(images: seq<LoadedImage>, nums: seq<ImageNum>, seen: set<nat>, k: nat)
    requires Tracks(images, nums, seen) && k in seen
    ensures k < |images|
  {
  }

  lemma SeenOwnNumber(images: seq<LoadedImage>, nums: seq<ImageNum>, seen: set<nat>, k: nat)
    requires Tracks(images, nums, seen) && k < |images|
    ensures images[k].imageNum in nums <==> k in seen
  {
  }

  lemma SeenBounded(images: seq<LoadedImage>, nums: seq<ImageNum>, seen: set<nat>)
    requires Tracks(images, nums, seen)
    ensures |seen| <= |images|
  {
  }

  lemma NoLinksYet(images: seq<LoadedImage>, node: nat, seen: set<nat>)
    requires node < |images|
    ensures Within(images, node, seen, seen) && LinksSeen(images, node, 0, seen)
  {
  }

  lemma LinkWithin(images: seq<LoadedImage>, node: nat, before: set<nat>, middle: set<nat>, after: set<nat>, k: nat)
    requires Within(images, node, before, middle) && after <= middle + {k}
    requires after != middle ==> Edge(images, node, k)
    ensures Within(images, node, before, after)
  {
    hide Edge;
  }
}
