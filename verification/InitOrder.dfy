/** The walk that assigns initializer order, and the list of initializers it emits. */
module InitOrder {
  import opened MachineWords
  import opened ImageGraph

  /** The record of one image; its order is a 30-bit field. */
  datatype InitInfo = InitInfo(initOrder: uint30, danglingUpward: bool, visited: bool)

  /** Progress of a walk: per-image records, the next order to hand out, whether a bad image was met. */
  datatype Walk = Walk(infos: seq<InitInfo>, nextOrder: nat, hasError: bool)

  const BLANK := InitInfo(0, false, false)

  ghost function Unvisited(infos: seq<InitInfo>): set<nat>
  {
    set k: nat | k < |infos| && !infos[k].visited
  }

  function MarkVisited(w: Walk, i: nat): Walk
    requires i < |w.infos|
  {
    w.(infos := w.infos[i := w.infos[i].(visited := true, danglingUpward := false)])
  }

  function MarkDangling(w: Walk, i: nat): Walk
    requires i < |w.infos|
  {
    if w.infos[i].visited then w else w.(infos := w.infos[i := w.infos[i].(danglingUpward := true)])
  }

  /** The order is stored in a 30-bit field. */
  function Finish(w: Walk, i: nat): Walk
    requires i < |w.infos|
  {
    Walk(w.infos[i := w.infos[i].(initOrder := w.nextOrder % 0x4000_0000)], w.nextOrder + 1, w.hasError)
  }

  /** The depth-first walk below image `i`. */
  function Visit(g: Graph, i: nat, w: Walk): (r: Walk)
    requires Linked(g) && |w.infos| == |g| && i < |g|
    ensures |r.infos| == |g| && Unvisited(r.infos) <= Unvisited(w.infos)
    ensures r.infos[i].visited
    decreases Unvisited(w.infos), 0, 0
  {
    if w.infos[i].visited then w else
    var entered := MarkVisited(w, i);
    assert i in Unvisited(w.infos) && i !in Unvisited(entered.infos);
    if g[i].isBadImage then entered.(hasError := true) else
    var (below, completed) := VisitLinks(g, g[i].dependents, entered);
    if completed then Finish(below, i) else below
  }

  /** The loop over the links of one image; false when a recursive walk reported an error. */
  function VisitLinks(g: Graph, deps: seq<LinkedImage>, w: Walk): (r: (Walk, bool))
    requires Linked(g) && |w.infos| == |g|
    requires forall k :: 0 <= k < |deps| ==> Resolves(g, deps[k])
    ensures |r.0.infos| == |g| && Unvisited(r.0.infos) <= Unvisited(w.infos)
    decreases Unvisited(w.infos), 1, |deps|
  {
    if deps == [] then (w, true)
    else if deps[0].imageNum == MISSING_WEAK_LINKED_IMAGE then VisitLinks(g, deps[1..], w)
    else
      assert Resolves(g, deps[0]);
      var j := FindLoaded(g, deps[0].imageNum);
      if deps[0].kind.Upward? then VisitLinks(g, deps[1..], MarkDangling(w, j))
      else
        var after := Visit(g, j, w);
        if after.hasError then (after, false) else VisitLinks(g, deps[1..], after)
  }

  /** The pass that adds the images so far only met through upward links, from index `i` on. */
  function VisitDangling(g: Graph, i: nat, w: Walk): (r: Walk)
    requires Linked(g) && |w.infos| == |g| && i <= |g|
    ensures |r.infos| == |g|
    decreases |g| - i
  {
    if i == |g| then w
    else VisitDangling(g, i + 1, if !w.infos[i].visited && w.infos[i].danglingUpward then Visit(g, i, w) else w)
  }

  function TopWalk(g: Graph, top: nat): Walk
    requires Linked(g) && top < |g|
  {
    Visit(g, top, Walk(seq(|g|, _ => BLANK), 1, false))
  }

  /** The complete walk; the dangling pass is skipped after an error below the top image. */
  function FullWalk(g: Graph, top: nat): (r: Walk)
    requires Linked(g) && top < |g|
    ensures |r.infos| == |g|
  {
    var w := TopWalk(g, top);
    if w.hasError then w else VisitDangling(g, 0, w)
  }

  // ----- the builder's methods ------------------------------------------------------------

  method FindLoadedImage(g: Graph, num: ImageNum) returns (k: nat)
    requires FindLoaded(g, num) < |g|
    ensures k == FindLoaded(g, num)
  {
    for i := 0 to |g|
      invariant forall j :: 0 <= j < i ==> g[j].imageNum != num
    {
      if g[i].imageNum == num {
        assert FindByNum(g, num) == i;
        return i;
      }
    }
    assert FindByNum(g, num) == |g|;
    k := 0;
    while g[k].overrideImageNum != num
      invariant k <= FindByOverride(g, num)
      decreases FindByOverride(g, num) - k
    {
      k := k + 1;
    }
  }

  /** The walk of an image not yet visited and not bad, step by step. */
  lemma VisitUnvisited(g: Graph, i: nat, w: Walk)
    requires Linked(g) && |w.infos| == |g| && i < |g| && !w.infos[i].visited && !g[i].isBadImage
    ensures Unvisited(MarkVisited(w, i).infos) < Unvisited(w.infos)
    ensures var (below, completed) := VisitLinks(g, g[i].dependents, MarkVisited(w, i));
            Visit(g, i, w) == if completed then Finish(below, i) else below
  {
    assert i in Unvisited(w.infos) && i !in Unvisited(MarkVisited(w, i).infos);
  }

  /** One step of the loop over an image's links. */
  lemma VisitLinksStep(g: Graph, deps: seq<LinkedImage>, k: nat, w: Walk)
    requires Linked(g) && |w.infos| == |g| && k < |deps| && forall n :: 0 <= n < |deps| ==> Resolves(g, deps[n])
    ensures deps[k].imageNum == MISSING_WEAK_LINKED_IMAGE ==>
              VisitLinks(g, deps[k..], w) == VisitLinks(g, deps[k + 1..], w)
    ensures deps[k].imageNum != MISSING_WEAK_LINKED_IMAGE ==>
              var j := FindLoaded(g, deps[k].imageNum);
              && j < |g|
              && VisitLinks(g, deps[k..], w)
              == if deps[k].kind.Upward? then VisitLinks(g, deps[k + 1..], MarkDangling(w, j))
                 else if Visit(g, j, w).hasError then (Visit(g, j, w), false)
                 else VisitLinks(g, deps[k + 1..], Visit(g, j, w))
  {
    assert deps[k..][0] == deps[k] && deps[k..][1..] == deps[k + 1..];
    assert Resolves(g, deps[k]);
  }

  method DepthFirstRecurseSetInitInfo(g: Graph, loadIndex: nat, initInfos: array<InitInfo>, initOrder: nat, hasError: bool)
    returns (nextOrder: nat, failed: bool)
    requires Linked(g) && initInfos.Length == |g| && loadIndex < |g|
    modifies initInfos
    ensures Walk(initInfos[..], nextOrder, failed) == Visit(g, loadIndex, Walk(old(initInfos[..]), initOrder, hasError))
    decreases Unvisited(initInfos[..]), 0
  {
    nextOrder, failed := initOrder, hasError;
    if initInfos[loadIndex].visited { return; }
    ghost var start := Walk(initInfos[..], initOrder, hasError);
    initInfos[loadIndex] := initInfos[loadIndex].(visited := true, danglingUpward := false);
    ghost var entered := Walk(initInfos[..], nextOrder, failed);
    assert entered == MarkVisited(start, loadIndex);
    if g[loadIndex].isBadImage {
      failed := true;
      return;
    }
    VisitUnvisited(g, loadIndex, start);
    hide Visit, VisitLinks, Unvisited, FindLoaded, Linked;
    var deps := g[loadIndex].dependents;
    assert forall n :: 0 <= n < |deps| ==> Resolves(g, deps[n]);
    ghost var goal := VisitLinks(g, deps, entered);
    assert deps[0..] == deps;
    for k := 0 to |deps|
      invariant Unvisited(initInfos[..]) <= Unvisited(entered.infos)
      invariant VisitLinks(g, deps[k..], Walk(initInfos[..], nextOrder, failed)) == goal
    {
      ghost var before := Walk(initInfos[..], nextOrder, failed);
      VisitLinksStep(g, deps, k, before);
      if deps[k].imageNum != MISSING_WEAK_LINKED_IMAGE {
        var j := FindLoadedImage(g, deps[k].imageNum);
        if deps[k].kind.Upward? {
          if !initInfos[j].visited {
            initInfos[j] := initInfos[j].(danglingUpward := true);
          }
          assert initInfos[..] == MarkDangling(before, j).infos;
          MarkDanglingUnvisited(before, j);
        } else {
          nextOrder, failed := DepthFirstRecurseSetInitInfo(g, j, initInfos, nextOrder, failed);
          if failed { return; }
        }
      }
    }
    ghost var below := Walk(initInfos[..], nextOrder, failed);
    NoLinks(g, below);
    assert goal == (below, true) by { assert deps[|deps|..] == []; }
    initInfos[loadIndex] := initInfos[loadIndex].(initOrder := nextOrder % 0x4000_0000);
    nextOrder := nextOrder + 1;
    assert Walk(initInfos[..], nextOrder, failed) == Finish(below, loadIndex);
  }

  lemma MarkDanglingUnvisited(w: Walk, j: nat)
    requires j < |w.infos|
    ensures Unvisited(MarkDangling(w, j).infos) == Unvisited(w.infos)
  {
  }

  lemma NoLinks(g: Graph, w: Walk)
    requires Linked(g) && |w.infos| == |g|
    ensures VisitLinks(g, [], w) == (w, true)
  {
  }
}
