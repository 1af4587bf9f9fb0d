/**
 What the runs of the collection protocol amount to, in terms of the actions alone: how often an address is
 open, which closes ask for a collection, which requests have been served, what has been removed.
 */
module GcHistory {
  import opened ImageGraph
  import opened ImageLookup
  import opened Unloading
  import opened GcProtocol

  // ----- reference counts ------------------------------------------------------------------------

  /** The action takes a reference on the address: an open, or a load whose top is not in the cache. */
  predicate Opens(a: Action, x: Address)
  {
    a == Open(x) || (a.Load? && !a.top.inDyldCache && a.top.loadAddress == x)
  }

  /** Opens less closes of an address; a close of one that is not open takes nothing. */
  function Balance(actions: seq<Action>, x: Address): nat
  {
    if actions == [] then 0 else
    var before, a := Balance(actions[..|actions| - 1], x), actions[|actions| - 1];
    if Opens(a, x) then before + 1
    else if a == Close(x) && before > 0 then before - 1
    else before
  }

  /** Over every run the count of each address is its balance. */
  lemma {:induction false} CountsExact(w: World, actions: seq<Action>, x: Address)
    requires Initial(w) && CanRun(w, actions)
    ensures ValidCounts(Run(w, actions).counts) && CountOf(Run(w, actions).counts, x) == Balance(actions, x)
  {
    hide CountOf, ValidCounts, Incremented, Decremented;
    if actions == [] {
      NothingOpen(x);
    } else {
      var front, a := actions[..|actions| - 1], actions[|actions| - 1];
      CountsExact(w, front, x);
      var r := Run(w, front);
      if a.Open? {
        IncrementedCounts(r.counts, a.address, x);
      } else if a.Load? && !a.top.inDyldCache {
        IncrementedCounts(r.counts, a.top.loadAddress, x);
      } else if a.Close? {
        DecrementedCounts(r.counts, a.address, x);
      }
    }
  }

  lemma NothingOpen(x: Address)
    ensures ValidCounts([]) && CountOf([], x) == 0
  {
  }

  /** Reference entries are unique and positive, each count is the balance of the opens and closes, and
      every entry names a loaded image, whatever terminators load. */
  lemma ReferencesExact(w: World, actions: seq<Action>, x: Address)
    requires Initial(w) && CanRun(w, actions) && OpensNested(w, actions)
    ensures var r := Run(w, actions);
            && ValidCounts(r.counts)
            && CountOf(r.counts, x) == Balance(actions, x)
            && (Balance(actions, x) > 0 ==> exists k :: 0 <= k < |r.loaded| && r.loaded[k].loadAddress == x)
  {
    CountsExact(w, actions, x);
    RootsRun(w, actions);
    var r := Run(w, actions);
    var k := EntryFor(r.counts, x);
    if k < |r.counts| { assert LoadedAt(r.loaded, r.counts[k].loadAddress); }
  }

  /** The i-th action opens no image that a pass has marked and not yet removed. */
  ghost predicate OpensNoDoomed(w: World, actions: seq<Action>, i: nat)
    requires i < |actions|
  {
    actions[i].Open? && CanRun(w, actions[..i]) ==>
      forall k :: 0 <= k < |Run(w, actions[..i]).loops| && Run(w, actions[..i]).loops[k].Marked? ==>
        actions[i].address !in Run(w, actions[..i]).loops[k].doomed
  }

  lemma {:induction false} OpensNestedExactly(w: World, actions: seq<Action>)
    requires CanRun(w, actions)
    ensures OpensNested(w, actions) <==> forall i :: 0 <= i < |actions| ==> OpensNoDoomed(w, actions, i)
  {
    if actions != [] {
      var n := |actions| - 1;
      var front := actions[..n];
      OpensNestedExactly(w, front);
      hide OpensNoDoomed, OpensSafe, Run, Enabled;
      forall i | 0 <= i < n ensures OpensNoDoomed(w, front, i) <==> OpensNoDoomed(w, actions, i) {
        OpensNoDoomedFront(w, actions, i);
      }
      OpensNoDoomedLast(w, actions);
    }
  }

  lemma OpensNoDoomedFront(w: World, actions: seq<Action>, i: nat)
    requires i < |actions| - 1
    ensures OpensNoDoomed(w, actions[..|actions| - 1], i) <==> OpensNoDoomed(w, actions, i)
  {
    var front := actions[..|actions| - 1];
    assert front[..i] == actions[..i] && front[i] == actions[i];
  }

  lemma OpensNoDoomedLast(w: World, actions: seq<Action>)
    requires actions != [] && CanRun(w, actions[..|actions| - 1])
    ensures OpensNoDoomed(w, actions, |actions| - 1) <==>
            OpensSafe(Run(w, actions[..|actions| - 1]), actions[|actions| - 1])
  {
  }

  // ----- requests --------------------------------------------------------------------------------

  /** The closes that gave up a last reference. */
  function LastCloses(actions: seq<Action>): nat
  {
    if actions == [] then 0 else
    var front, a := actions[..|actions| - 1], actions[|actions| - 1];
    LastCloses(front) + if a.Close? && Balance(front, a.address) == 1 then 1 else 0
  }

  function Requests(actions: seq<Action>): nat
  {
    if actions == [] then 0 else
    Requests(actions[..|actions| - 1]) + if actions[|actions| - 1] == Request then 1 else 0
  }

  function Decrements(actions: seq<Action>): nat
  {
    if actions == [] then 0 else
    Decrements(actions[..|actions| - 1]) + if actions[|actions| - 1].Decrement? then 1 else 0
  }

  /** Each close of a last reference leads to one request, made or pending; the counter counts the requests
      not yet taken off it. */
  lemma {:induction false} RequestsExact(w: World, actions: seq<Action>)
    requires Initial(w) && CanRun(w, actions)
    ensures Run(w, actions).pending + Requests(actions) == LastCloses(actions)
    ensures Run(w, actions).gcCount + Decrements(actions) == Requests(actions)
  {
    hide CountOf, ValidCounts, Incremented, Decremented, Balance;
    if actions != [] {
      var front, a := actions[..|actions| - 1], actions[|actions| - 1];
      RequestsExact(w, front);
      if a.Close? {
        CountsExact(w, front, a.address);
        DecrementedCounts(Run(w, front).counts, a.address, a.address);
      }
    }
  }

  /** A close asks for a collection exactly when it gives up the last reference. */
  lemma CloseRequests(w: World, actions: seq<Action>, address: Address)
    requires Initial(w) && CanRun(w, actions + [Close(address)])
    ensures CanRun(w, actions)
    ensures Run(w, actions + [Close(address)]).pending
         == Run(w, actions).pending + if Balance(actions, address) == 1 then 1 else 0
  {
    var all := actions + [Close(address)];
    assert all[..|all| - 1] == actions;
    RequestsExact(w, actions);
    RequestsExact(w, all);
  }

  function RequestsSinceMark(actions: seq<Action>): nat
  {
    if actions == [] || actions[|actions| - 1].Mark? then 0 else
    RequestsSinceMark(actions[..|actions| - 1]) + if actions[|actions| - 1] == Request then 1 else 0
  }

  /** The last mark has not been followed by its removal. */
  predicate Unremoved(actions: seq<Action>)
  {
    actions != [] &&
    var a := actions[|actions| - 1];
    a.Mark? || (!a.Remove? && Unremoved(actions[..|actions| - 1]))
  }

  /** A collector stands between its mark and its removal. */
  predicate BetweenMarkAndRemove(w: World) { w.loops != [] && w.loops[0].Marked? }

  lemma PassStep(w: World, a: Action)
    requires CounterOk(w) && Enabled(w, a)
    ensures Step(w, a).requestsSinceMark ==
              if a.Mark? then 0 else w.requestsSinceMark + if a == Request then 1 else 0
    ensures BetweenMarkAndRemove(Step(w, a)) <==> a.Mark? || (!a.Remove? && BetweenMarkAndRemove(w))
  {
    hide Incremented, Decremented, Dead, Remaining, OpenedTop;
  }

  lemma {:induction false} PassExact(w: World, actions: seq<Action>)
    requires Initial(w) && CanRun(w, actions)
    ensures Run(w, actions).requestsSinceMark == RequestsSinceMark(actions)
    ensures Unremoved(actions) <==> Run(w, actions).loops != [] && Run(w, actions).loops[0].Marked?
  {
    if actions != [] {
      hide Step, Enabled;
      PassExact(w, actions[..|actions| - 1]);
      CounterRun(w, actions[..|actions| - 1]);
      PassStep(Run(w, actions[..|actions| - 1]), actions[|actions| - 1]);
    }
  }

  lemma {:induction false} MarkAfter(actions: seq<Action>, i: nat)
    requires i < |actions| && actions[i] == Request && RequestsSinceMark(actions) == 0
    ensures exists j :: i < j < |actions| && actions[j].Mark?
  {
    var n := |actions| - 1;
    if !actions[n].Mark? {
      MarkAfter(actions[..n], i);
      var j :| i < j < n && actions[..n][j].Mark?;
      assert actions[j].Mark?;
    }
  }

  lemma {:induction false} RemoveAfter(actions: seq<Action>, j: nat)
    requires j < |actions| && actions[j].Mark? && !Unremoved(actions)
    ensures exists k :: j < k < |actions| && actions[k].Remove?
  {
    var n := |actions| - 1;
    if !actions[n].Remove? {
      RemoveAfter(actions[..n], j);
      var k :| j < k < n && actions[..n][k].Remove?;
      assert actions[k].Remove?;
    }
  }

  /** Over every interleaving at most one collector is in its loop, exactly while the count is not zero; and
      when the count is back to zero every request has been followed by a mark, and that by a removal. */
  lemma NoRequestLost(w: World, actions: seq<Action>)
    requires Initial(w) && CanRun(w, actions)
    ensures |Run(w, actions).loops| == if Run(w, actions).gcCount == 0 then 0 else 1
    ensures Run(w, actions).gcCount == 0 ==>
              forall i :: 0 <= i < |actions| && actions[i] == Request ==>
                exists j, k :: i < j < k < |actions| && actions[j].Mark? && actions[k].Remove?
  {
    CounterRun(w, actions);
    PassExact(w, actions);
    if Run(w, actions).gcCount == 0 {
      forall i | 0 <= i < |actions| && actions[i] == Request
        ensures exists j, k :: i < j < k < |actions| && actions[j].Mark? && actions[k].Remove?
      {
        MarkAfter(actions, i);
        var j :| i < j < |actions| && actions[j].Mark?;
        RemoveAfter(actions, j);
      }
    }
  }

  // ----- what is loaded ----------------------------------------------------------------------------

  function LastMark(actions: seq<Action>): (m: nat)
    requires Unremoved(actions)
    ensures m < |actions| && actions[m].Mark?
    ensures forall k :: m < k < |actions| ==> !actions[k].Mark? && !actions[k].Remove?
  {
    var n := |actions| - 1;
    if actions[n].Mark? then n else LastMark(actions[..n])
  }

  lemma {:induction false} DoomedAtMark(w: World, actions: seq<Action>)
    requires Initial(w) && CanRun(w, actions) && Unremoved(actions)
    ensures var m := LastMark(actions);
            && CanRun(w, actions[..m])
            && Run(w, actions).loops == [Marked(Dead(Run(w, actions[..m]).loaded, Run(w, actions[..m]).counts))]
    decreases |actions|
  {
    hide Incremented, Decremented, Dead, Remaining, OpenedTop;
    var n := |actions| - 1;
    PassExact(w, actions);
    CounterRun(w, actions);
    CounterRun(w, actions[..n]);
    if !actions[n].Mark? {
      PassExact(w, actions[..n]);
      DoomedAtMark(w, actions[..n]);
      assert actions[..n][..LastMark(actions)] == actions[..LastMark(actions)];
    }
  }

  /** Loading adds its images; a removal takes away exactly the images at the addresses of unloadable images
      that were not live when the pass marked; nothing else changes what is loaded. */
  lemma LoadedExactly(w: World, actions: seq<Action>, a: Action, li: LoadedImage)
    requires Initial(w) && CanRun(w, actions) && CanRun(w, actions + [a])
    ensures a.Remove? ==> Unremoved(actions) && CanRun(w, actions[..LastMark(actions)])
    ensures li in Run(w, actions + [a]).loaded <==>
              if a.Load? then li in Run(w, actions).loaded || li in a.images
              else if a.Remove? then
                var marked := Run(w, actions[..LastMark(actions)]);
                li in Run(w, actions).loaded &&
                forall d :: d in marked.loaded && !d.neverUnload && d.loadAddress == li.loadAddress ==>
                  Live(marked.loaded, marked.counts, d.loadAddress)
              else li in Run(w, actions).loaded
  {
    hide Live, Incremented, Decremented, OpenedTop, LastMark;
    var all := actions + [a];
    assert all[..|all| - 1] == actions;
    if a.Remove? {
      PassExact(w, actions);
      CounterRun(w, actions);
      DoomedAtMark(w, actions);
    }
  }

  // ----- progress ----------------------------------------------------------------------------------

  /** After every run: what is loaded can be opened and closed, fresh images can be loaded, a pending request
      can be made, and a collector can take its next step. */
  lemma NeverStuck(w: World, actions: seq<Action>)
    requires Initial(w) && CanRun(w, actions)
    ensures var r := Run(w, actions);
            && (forall li :: li in r.loaded && !li.inDyldCache ==> CanRun(w, actions + [Open(li.loadAddress)]))
            && (forall li :: li in r.loaded && !li.neverUnload ==> CanRun(w, actions + [Close(li.loadAddress)]))
            && (forall images, top :: top in images && UniqueAddresses(r.loaded + images) ==>
                  CanRun(w, actions + [Load(images, top)]))
            && (r.pending > 0 && r.gcCount < 0x7FFF_FFFF ==> CanRun(w, actions + [Request]))
            && (r.gcCount > 0 ==>
                  CanRun(w, actions + [Mark(0)]) || CanRun(w, actions + [Remove(0)]) || CanRun(w, actions + [Decrement(0)]))
  {
    hide CountOf, ValidCounts, Step;
    var r := Run(w, actions);
    CountsExact(w, actions, 0);
    CounterRun(w, actions);
    forall a | Enabled(r, a) ensures CanRun(w, actions + [a]) {
      assert (actions + [a])[..|actions + [a]| - 1] == actions;
    }
    forall li | li in r.loaded
      ensures !li.inDyldCache ==> Enabled(r, Open(li.loadAddress))
      ensures !li.neverUnload ==> Enabled(r, Close(li.loadAddress))
    {
      var k :| 0 <= k < |r.loaded| && r.loaded[k] == li;
    }
  }
}
