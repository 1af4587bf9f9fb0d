/**
 Which images the initializer order covers: what the top reaches, and what is added by the single pass
 over the indices that starts from upward targets.
 */
module InitCoverage {
  import opened ImageGraph
  import opened InitOrder
  import opened InitOrderProofs

  // ----- errors stick ---------------------------------------------------------------------------

  lemma {:induction false} ErrorSticks(g: Graph, i: nat, w: Walk)
    requires Linked(g) && |w.infos| == |g| && i < |g| && w.hasError
    ensures Visit(g, i, w).hasError
    decreases Unvisited(w.infos), 0, 0
  {
    if !w.infos[i].visited && !g[i].isBadImage {
      var entered := MarkVisited(w, i);
      assert i in Unvisited(w.infos) && i !in Unvisited(entered.infos);
      ErrorSticksLinks(g, g[i].dependents, entered);
    }
  }

  lemma {:induction false} ErrorSticksLinks(g: Graph, deps: seq<LinkedImage>, w: Walk)
    requires Linked(g) && |w.infos| == |g| && w.hasError
    requires forall k :: 0 <= k < |deps| ==> Resolves(g, deps[k])
    ensures VisitLinks(g, deps, w).0.hasError
    decreases Unvisited(w.infos), 1, |deps|
  {
    if deps != [] {
      if deps[0].imageNum == MISSING_WEAK_LINKED_IMAGE {
        ErrorSticksLinks(g, deps[1..], w);
      } else {
        assert Resolves(g, deps[0]);
        var j := FindLoaded(g, deps[0].imageNum);
        if deps[0].kind.Upward? {
          assert Unvisited(MarkDangling(w, j).infos) == Unvisited(w.infos);
          ErrorSticksLinks(g, deps[1..], MarkDangling(w, j));
        } else {
          ErrorSticks(g, j, w);
        }
      }
    }
  }

  lemma {:induction false} ErrorSticksDangling(g: Graph, i: nat, w: Walk)
    requires Linked(g) && |w.infos| == |g| && i <= |g| && w.hasError
    ensures VisitDangling(g, i, w).hasError
    decreases |g| - i
  {
    if i < |g| {
      if !w.infos[i].visited && w.infos[i].danglingUpward {
        ErrorSticks(g, i, w);
        ErrorSticksDangling(g, i + 1, Visit(g, i, w));
      } else {
        ErrorSticksDangling(g, i + 1, w);
      }
    }
  }

  // ----- the pass over upward targets -----------------------------------------------------------

  /** Some image of the set links upward to `k`. */
  ghost predicate Met(g: Graph, s: set<nat>, k: nat)
  {
    exists u :: u in s && LinksTo(g, u, k, true)
  }

  ghost function Below(g: Graph, i: nat): (s: set<nat>)
    ensures forall k: nat :: k in s <==> k < |g| && Reaches(g, i, k)
  {
    set k: nat | k < |g| && Reaches(g, i, k)
  }

  /** At index `i` the pass starts a walk: the image is not covered yet and has been met. */
  ghost predicate Starts(g: Graph, s: set<nat>, i: nat) { i !in s && Met(g, s, i) }

  ghost function Next(g: Graph, s: set<nat>, i: nat): set<nat>
  {
    if Starts(g, s, i) then s + Below(g, i) else s
  }

  /** The images covered when the pass is at index `i`, in terms of the links alone. */
  ghost function Stage(g: Graph, top: nat, i: nat): set<nat>
  {
    if i == 0 then Below(g, top) else Next(g, Stage(g, top, i - 1), i - 1)
  }

  ghost function Covered(g: Graph, top: nat): set<nat> { Stage(g, top, |g|) }

  /** Some image of the set is bad. */
  predicate BadIn(g: Graph, s: set<nat>)
  {
    exists k :: k in s && k < |g| && g[k].isBadImage
  }

  lemma {:induction false} StageGrows(g: Graph, top: nat, i: nat, j: nat)
    requires i <= j
    ensures Stage(g, top, i) <= Stage(g, top, j)
    decreases j
  {
    if i < j { StageGrows(g, top, i, j - 1); }
  }

  /** Whatever is covered later was reached from an index where the pass started in between. */
  lemma {:induction false} AddedBetween(g: Graph, top: nat, i: nat, j: nat, k: nat)
    requires i <= j && k in Stage(g, top, j) && k !in Stage(g, top, i)
    ensures exists n: nat :: i <= n < j && Starts(g, Stage(g, top, n), n) && Reaches(g, n, k)
    decreases j
  {
    if i < j && k in Stage(g, top, j - 1) {
      AddedBetween(g, top, i, j - 1, k);
      var n: nat :| i <= n < j - 1 && Starts(g, Stage(g, top, n), n) && Reaches(g, n, k);
      assert i <= n < j;
    } else if i < j {
      assert k in Below(g, j - 1) && Starts(g, Stage(g, top, j - 1), j - 1);
    }
  }

  /** Only images met through an upward link of an entered image are marked. */
  ghost predicate DangleMet(g: Graph, w: Walk)
  {
    forall k: nat :: Dangling(w, k) ==> exists u: nat :: Seen(w, u) && LinksTo(g, u, k, true)
  }

  lemma MetKept(g: Graph, w: Walk, r: Walk)
    requires DangleMet(g, w) && |r.infos| == |w.infos| && Unvisited(r.infos) <= Unvisited(w.infos)
    requires forall k: nat :: Dangling(r, k) ==> Dangling(w, k) || exists u: nat :: Seen(r, u) && LinksTo(g, u, k, true)
    ensures DangleMet(g, r)
  {
    hide LinksTo;
    forall k: nat | Dangling(r, k) ensures exists u: nat :: Seen(r, u) && LinksTo(g, u, k, true) {
      if Dangling(w, k) {
        var u: nat :| Seen(w, u) && LinksTo(g, u, k, true);
        assert u !in Unvisited(r.infos);
        assert Seen(r, u);
      }
    }
  }

  lemma {:induction false} VisitMet(g: Graph, i: nat, w: Walk)
    requires Linked(g) && |w.infos| == |g| && i < |g| && DangleMet(g, w)
    ensures DangleMet(g, Visit(g, i, w))
    decreases Unvisited(w.infos), 0, 0
  {
    hide DangleMet, LinksTo;
    if !w.infos[i].visited {
      var entered := MarkVisited(w, i);
      assert i in Unvisited(w.infos) && i !in Unvisited(entered.infos);
      assert forall k: nat :: Dangling(entered, k) ==> Dangling(w, k);
      MetKept(g, w, entered);
      if !g[i].isBadImage {
        VisitLinksMet(g, i, g[i].dependents, entered);
        var below := VisitLinks(g, g[i].dependents, entered).0;
        assert Unvisited(Finish(below, i).infos) == Unvisited(below.infos);
        assert forall k: nat :: Dangling(Finish(below, i), k) ==> Dangling(below, k);
        MetKept(g, below, Finish(below, i));
      } else {
        MetKept(g, entered, entered.(hasError := true));
      }
    }
  }

  lemma {:induction false} VisitLinksMet(g: Graph, i: nat, deps: seq<LinkedImage>, w: Walk)
    requires Linked(g) && |w.infos| == |g| && i < |g| && DangleMet(g, w) && Seen(w, i)
    requires forall k :: 0 <= k < |deps| ==> Resolves(g, deps[k]) && deps[k] in g[i].dependents
    ensures DangleMet(g, VisitLinks(g, deps, w).0)
    decreases Unvisited(w.infos), 1, |deps|
  {
    hide Linked, DangleMet, LinksTo;
    if deps != [] {
      if deps[0].imageNum == MISSING_WEAK_LINKED_IMAGE {
        VisitLinksMet(g, i, deps[1..], w);
      } else {
        assert Resolves(g, deps[0]);
        var j := FindLoaded(g, deps[0].imageNum);
        if deps[0].kind.Upward? {
          var m := MarkDangling(w, j);
          assert Unvisited(m.infos) == Unvisited(w.infos);
          UpwardLink(g, i, deps[0], j);
          assert Seen(m, i);
          forall k: nat | Dangling(m, k) && !Dangling(w, k)
            ensures exists u: nat :: Seen(m, u) && LinksTo(g, u, k, true)
          {
            assert k == j;
          }
          MetKept(g, w, m);
          VisitLinksMet(g, i, deps[1..], m);
        } else {
          VisitMet(g, j, w);
          var after := Visit(g, j, w);
          assert i !in Unvisited(w.infos);
          assert Seen(after, i);
          if !after.hasError { VisitLinksMet(g, i, deps[1..], after); }
        }
      }
    }
  }

  lemma UpwardLink(g: Graph, i: nat, d: LinkedImage, j: nat)
    requires i < |g| && d in g[i].dependents && d.imageNum != MISSING_WEAK_LINKED_IMAGE && d.kind.Upward?
    requires j == FindLoaded(g, d.imageNum) < |g|
    ensures LinksTo(g, i, j, true)
  {
    var k :| 0 <= k < |g[i].dependents| && g[i].dependents[k] == d;
    assert IsLink(g, g[i].dependents[k], j, true);
  }

  /** A walk without error between two indices of the pass: exactly `s` is entered, and finished. */
  ghost predicate AtStage(g: Graph, w: Walk, s: set<nat>)
  {
    && |w.infos| == |g| && Good(g, w) && NoGray(w) && DangleMet(g, w)
    && forall k: nat :: Seen(w, k) <==> k in s
  }

  /** Marked means met, for images not covered yet. */
  lemma MarkedIsMet(g: Graph, w: Walk, s: set<nat>, k: nat)
    requires AtStage(g, w, s) && k < |g| && k !in s
    ensures Dangling(w, k) <==> Met(g, s, k)
  {
    hide Orderly, Follows, LinksTo;
    if Dangling(w, k) {
      var u: nat :| Seen(w, u) && LinksTo(g, u, k, true);
      assert u in s;
    }
    if Met(g, s, k) {
      var u :| u in s && LinksTo(g, u, k, true);
      assert Seen(w, u) && !Gray(w, u) && Done(w, u);
    }
  }

  lemma StageNotBad(g: Graph, w: Walk, s: set<nat>)
    requires AtStage(g, w, s)
    ensures !BadIn(g, s)
  {
    hide Follows, Marks;
    forall k | k in s && k < |g| ensures !g[k].isBadImage {
      assert Seen(w, k) && !Gray(w, k);
      DoneNotBad(g, w, k);
    }
  }

  /** Starting a walk at a met image adds exactly what is below it, or fails when that has a bad image. */
  lemma StartStep(g: Graph, i: nat, w: Walk, s: set<nat>)
    requires Linked(g) && AtStage(g, w, s) && i < |g|
    ensures var r := Visit(g, i, w);
            && (r.hasError <==> BadIn(g, s + Below(g, i)))
            && (!r.hasError ==> AtStage(g, r, s + Below(g, i)))
  {
    hide Reaches, Orderly, Follows, Marks, Visit, LinksTo, DangleMet;
    VisitGood(g, i, w);
    VisitMet(g, i, w);
    var r, t := Visit(g, i, w), s + Below(g, i);
    if r.hasError {
      var k: nat :| k < |g| && Reaches(g, i, k) && g[k].isBadImage;
      assert k in t;
    } else {
      assert NoGray(r);
      forall k: nat ensures Seen(r, k) <==> k in t {
        if k in Below(g, i) { ReachableSeen(g, r, i, k); }
      }
      StageNotBad(g, r, t);
    }
  }

  /** From any index on, the pass fails exactly when it comes to a bad image, and otherwise covers exactly
      what the links say. */
  lemma {:induction false} VisitDanglingExact(g: Graph, top: nat, i: nat, w: Walk)
    requires Linked(g) && i <= |g| && AtStage(g, w, Stage(g, top, i))
    ensures var r := VisitDangling(g, i, w);
            && (r.hasError <==> BadIn(g, Covered(g, top)))
            && (!r.hasError ==> AtStage(g, r, Covered(g, top)))
    decreases |g| - i
  {
    hide AtStage, Visit, Below, Starts, BadIn, Met;
    var s := Stage(g, top, i);
    AtStageLength(g, w, s);
    if i == |g| {
      StageNotBad(g, w, s);
    } else {
      StartsWhenMarked(g, w, s, i);
      if !w.infos[i].visited && w.infos[i].danglingUpward {
        StartStep(g, i, w, s);
        var w1 := Visit(g, i, w);
        if w1.hasError {
          ErrorSticksDangling(g, i + 1, w1);
          StageGrows(g, top, i + 1, |g|);
          BadInMore(g, Stage(g, top, i + 1), Covered(g, top));
        } else {
          VisitDanglingExact(g, top, i + 1, w1);
        }
      } else {
        VisitDanglingExact(g, top, i + 1, w);
      }
    }
  }

  lemma AtStageLength(g: Graph, w: Walk, s: set<nat>)
    requires AtStage(g, w, s)
    ensures |w.infos| == |g| && !w.hasError
  {
  }

  lemma StartsWhenMarked(g: Graph, w: Walk, s: set<nat>, i: nat)
    requires AtStage(g, w, s) && i < |g|
    ensures !w.infos[i].visited && w.infos[i].danglingUpward <==> Starts(g, s, i)
  {
    assert Seen(w, i) <==> i in s;
    if i !in s { MarkedIsMet(g, w, s, i); }
  }

  lemma BadInMore(g: Graph, s: set<nat>, t: set<nat>)
    requires BadIn(g, s) && s <= t
    ensures BadIn(g, t)
  {
  }

  // ----- main results --------------------------------------------------------------------------

  /** An image the initializer order covers. */
  predicate Visited(g: Graph, top: nat, k: nat)
    requires Linked(g) && top < |g|
  {
    Seen(FullWalk(g, top), k)
  }

  function OrderOf(g: Graph, top: nat, k: nat): nat
    requires Linked(g) && top < |g| && k < |g|
  {
    Order(FullWalk(g, top), k)
  }

  /** The builder does not mark the image invalid. */
  predicate Succeeds(g: Graph, top: nat)
  {
    Linked(g) && top < |g| < 0x4000_0000 && !FullWalk(g, top).hasError
  }

  lemma FullWalkExact(g: Graph, top: nat)
    requires Linked(g) && top < |g| < 0x4000_0000
    ensures var r := FullWalk(g, top);
            && (r.hasError <==> BadIn(g, Covered(g, top)))
            && (!r.hasError ==> AtStage(g, r, Covered(g, top)))
  {
    hide Reaches, Visit, Good, NoGray, Stage;
    TopWalkExact(g, top);
    var w := TopWalk(g, top);
    FirstStage(g, top);
    StageGrows(g, top, 0, |g|);
    if w.hasError {
      var k: nat :| k < |g| && Reaches(g, top, k) && g[k].isBadImage;
      assert k in Covered(g, top);
    } else {
      TopMet(g, top);
      TopWalkRange(g, top);
      VisitDanglingExact(g, top, 0, w);
    }
  }

  lemma FirstStage(g: Graph, top: nat)
    ensures Stage(g, top, 0) == Below(g, top)
  {
  }

  lemma TopMet(g: Graph, top: nat)
    requires Linked(g) && top < |g|
    ensures DangleMet(g, TopWalk(g, top))
  {
    hide Visit, LinksTo;
    var blank := Walk(seq(|g|, _ => BLANK), 1, false);
    assert forall k: nat :: !Dangling(blank, k);
    VisitMet(g, top, blank);
  }

  lemma TopWalkRange(g: Graph, top: nat)
    requires Linked(g) && top < |g|
    ensures forall k: nat :: Seen(TopWalk(g, top), k) ==> k < |g|
  {
    hide Reaches;
  }

  /** The builder marks the image invalid exactly when its walk comes to a bad image, below the top or
      below an upward target that the pass starts from. */
  lemma InvalidWhenBad(g: Graph, top: nat)
    requires Linked(g) && top < |g| < 0x4000_0000
    ensures FullWalk(g, top).hasError <==> exists k :: k in Covered(g, top) && k < |g| && g[k].isBadImage
  {
    hide FullWalk, Covered, AtStage;
    FullWalkExact(g, top);
  }

  /** Otherwise the visited images are exactly those the links say. */
  lemma VisitedExactly(g: Graph, top: nat, k: nat)
    requires Succeeds(g, top)
    ensures Visited(g, top, k) <==> k in Covered(g, top)
  {
    hide FullWalk, Covered;
    FullWalkExact(g, top);
  }

  /** Every visited image gets a positive order of its own. */
  lemma OrdersDistinct(g: Graph, top: nat, j: nat, k: nat)
    requires Succeeds(g, top)
    requires Visited(g, top, j) && Visited(g, top, k)
    ensures OrderOf(g, top, j) > 0 && (j != k ==> OrderOf(g, top, j) != OrderOf(g, top, k))
  {
    hide FullWalk, Covered, DangleMet, Follows, Marks;
    FullWalkExact(g, top);
    var r := FullWalk(g, top);
    assert !Gray(r, j) && !Gray(r, k);
  }

  /** A visited image is ordered after each image it links to downward, unless that image leads back to it. */
  lemma DependentsFirst(g: Graph, top: nat, u: nat, v: nat)
    requires Succeeds(g, top)
    requires Visited(g, top, u) && LinksTo(g, u, v, false)
    ensures Visited(g, top, v)
    ensures Reaches(g, v, u) || OrderOf(g, top, v) < OrderOf(g, top, u)
  {
    hide FullWalk, Reaches, LinksTo, Covered, DangleMet;
    FullWalkExact(g, top);
    assert !Gray(FullWalk(g, top), u);
  }

  /** The same, link by link: whatever a visited image links to, other than upward, comes before it. */
  lemma LinkedFirst(g: Graph, top: nat, u: nat, k: nat)
    requires Succeeds(g, top) && Linked(g)
    requires u < |g| && Visited(g, top, u) && k < |g[u].dependents|
    requires g[u].dependents[k].imageNum != 0x0FFF_FFFF && g[u].dependents[k].kind != Upward
    ensures var v := FindLoaded(g, g[u].dependents[k].imageNum);
            v < |g| && Visited(g, top, v) && (Reaches(g, v, u) || OrderOf(g, top, v) < OrderOf(g, top, u))
  {
    hide FullWalk, Reaches, Visited, Succeeds;
    var v := FindLoaded(g, g[u].dependents[k].imageNum);
    assert Resolves(g, g[u].dependents[k]);
    assert IsLink(g, g[u].dependents[k], v, false);
    DependentsFirst(g, top, u, v);
  }

  /** The same along chains of downward links. */
  lemma ReachableFirst(g: Graph, top: nat, u: nat, v: nat)
    requires Succeeds(g, top)
    requires Visited(g, top, u) && Reaches(g, u, v)
    ensures Visited(g, top, v)
  {
    hide FullWalk, Reaches, Covered, DangleMet;
    FullWalkExact(g, top);
    ReachableSeen(g, FullWalk(g, top), u, v);
  }

  /** The target was covered, or had been met, when the pass came to its index. */
  ghost predicate InTime(g: Graph, top: nat, v: nat)
  {
    v in Stage(g, top, v) || Met(g, Stage(g, top, v), v)
  }

  /** The pass starts at a later index that reaches the image. */
  ghost predicate ReachedLater(g: Graph, top: nat, v: nat)
  {
    exists j: nat :: v < j < |g| && Starts(g, Stage(g, top, j), j) && Reaches(g, j, v)
  }

  lemma CoveredExactly(g: Graph, top: nat, v: nat)
    requires v < |g|
    ensures v in Covered(g, top) <==> InTime(g, top, v) || ReachedLater(g, top, v)
  {
    hide Reaches, Met;
    ReachesSelf(g, v);
    StageGrows(g, top, v + 1, |g|);
    if ReachedLater(g, top, v) {
      var j: nat :| v < j < |g| && Starts(g, Stage(g, top, j), j) && Reaches(g, j, v);
      assert v in Stage(g, top, j + 1);
      StageGrows(g, top, j + 1, |g|);
    }
    if v in Covered(g, top) && v !in Stage(g, top, v + 1) {
      AddedBetween(g, top, v + 1, |g|, v);
      var j: nat :| v + 1 <= j < |g| && Starts(g, Stage(g, top, j), j) && Reaches(g, j, v);
      assert v < j;
    }
  }

  /** Everything reachable downward from the top, and each upward target met on that walk, is visited. */
  lemma TopCovered(g: Graph, top: nat, u: nat)
    requires Succeeds(g, top)
    requires Reaches(g, top, u) && u < |g|
    ensures Visited(g, top, u)
    ensures forall v: nat :: v < |g| && LinksTo(g, u, v, true) ==> Visited(g, top, v)
  {
    hide FullWalk, Reaches, LinksTo, Stage;
    FirstStage(g, top);
    StageGrows(g, top, 0, |g|);
    assert u in Covered(g, top) by { assert u in Below(g, top); }
    VisitedExactly(g, top, u);
    forall v: nat | v < |g| && LinksTo(g, u, v, true) ensures Visited(g, top, v) {
      StageGrows(g, top, 0, v);
      assert u in Stage(g, top, v);
      CoveredExactly(g, top, v);
      VisitedExactly(g, top, v);
    }
  }

  /** An upward target of a visited image is left out exactly when the pass had gone by its index before the
      target was met, and starts at no later index that reaches it; the visited image is then itself
      covered only through such a later index. */
  lemma UpwardTargetsLeftOut(g: Graph, top: nat, u: nat, v: nat)
    requires Succeeds(g, top)
    requires Visited(g, top, u) && LinksTo(g, u, v, true) && v < |g|
    ensures !Visited(g, top, v) <==> !InTime(g, top, v) && !ReachedLater(g, top, v)
    ensures !Visited(g, top, v) ==>
              !Reaches(g, top, u)
              && exists j: nat :: v < j < |g| && Visited(g, top, j) && !Reaches(g, top, j) && Reaches(g, j, u)
  {
    hide FullWalk, Reaches, LinksTo, Stage, Starts;
    VisitedExactly(g, top, u);
    VisitedExactly(g, top, v);
    CoveredExactly(g, top, v);
    if !Visited(g, top, v) { MetLate(g, top, u, v); }
  }

  lemma MetLate(g: Graph, top: nat, u: nat, v: nat)
    requires Succeeds(g, top) && v < |g|
    requires u in Covered(g, top) && LinksTo(g, u, v, true) && v !in Covered(g, top)
    ensures !Reaches(g, top, u)
    ensures exists j: nat :: v < j < |g| && Visited(g, top, j) && !Reaches(g, top, j) && Reaches(g, j, u)
  {
    hide FullWalk, Reaches, LinksTo;
    CoveredExactly(g, top, v);
    StageInRange(g, top, |g|, u);
    assert u !in Stage(g, top, v);
    AddedBetween(g, top, v, |g|, u);
    var j: nat :| v <= j < |g| && Starts(g, Stage(g, top, j), j) && Reaches(g, j, u);
    FirstStage(g, top);
    StageGrows(g, top, 0, v);
    StageGrows(g, top, 0, j);
    ReachesSelf(g, j);
    assert j in Stage(g, top, j + 1);
    StageGrows(g, top, j + 1, |g|);
    VisitedExactly(g, top, j);
    assert !Reaches(g, top, j) by { assert j !in Below(g, top); }
  }

  lemma {:induction false} StageInRange(g: Graph, top: nat, i: nat, u: nat)
    requires u in Stage(g, top, i)
    ensures u < |g|
    decreases i
  {
    if i > 0 && u in Stage(g, top, i - 1) { StageInRange(g, top, i - 1, u); }
  }

  /** No upward target of a visited image is left out exactly when each target that some covered image links
      up to is met by the time the pass comes to its index, or reached from a later start. */
  lemma UpwardTargetsVisited(g: Graph, top: nat)
    requires Succeeds(g, top)
    ensures (forall u: nat, v: nat :: v < |g| && Visited(g, top, u) && LinksTo(g, u, v, true) ==> Visited(g, top, v))
       <==> (forall v: nat :: v < |g| && Met(g, Covered(g, top), v) ==> InTime(g, top, v) || ReachedLater(g, top, v))
  {
    hide FullWalk, LinksTo, Covered, InTime, ReachedLater;
    forall k: nat ensures Visited(g, top, k) <==> k in Covered(g, top) { VisitedExactly(g, top, k); }
    forall v: nat | v < |g| ensures v in Covered(g, top) <==> InTime(g, top, v) || ReachedLater(g, top, v) {
      CoveredExactly(g, top, v);
    }
    if forall u: nat, v: nat :: v < |g| && Visited(g, top, u) && LinksTo(g, u, v, true) ==> Visited(g, top, v) {
      forall v: nat | v < |g| && Met(g, Covered(g, top), v) ensures v in Covered(g, top) {
        var u :| u in Covered(g, top) && LinksTo(g, u, v, true);
        assert Visited(g, top, u);
      }
    }
  }

  // ----- a target the dangling pass misses ------------------------------------------------------

  /** Image 0 links upward to image 2, which links upward to image 1. */
  const LATE: Graph := [
    BuilderImage(1, 0, [LinkedImage(Upward, 3)], true, false),
    BuilderImage(2, 0, [], true, false),
    BuilderImage(3, 0, [LinkedImage(Upward, 2)], true, false)]

  /** The dangling pass goes up the indices once, so image 1, marked while image 2 is walked, is never visited. */
  lemma UpwardTargetMissed()
    ensures Linked(LATE)
    ensures Visited(LATE, 0, 2) && LinksTo(LATE, 2, 1, true) && LATE[1].hasInits && !Visited(LATE, 0, 1)
  {
    var g := LATE;
    assert FindLoaded(g, 3) == 2 && FindLoaded(g, 2) == 1;
    assert Resolves(g, g[0].dependents[0]) && Resolves(g, g[2].dependents[0]);
    assert IsLink(g, g[2].dependents[0], 1, true);
    var w0 := Walk(seq(|g|, _ => BLANK), 1, false);
    assert w0.infos == [BLANK, BLANK, BLANK];
    var w1 := Walk([InitInfo(1, false, true), BLANK, InitInfo(0, true, false)], 2, false);
    assert VisitLinks(g, [], MarkDangling(MarkVisited(w0, 0), 2)) == (MarkDangling(MarkVisited(w0, 0), 2), true);
    assert VisitLinks(g, g[0].dependents, MarkVisited(w0, 0)) == (MarkDangling(MarkVisited(w0, 0), 2), true);
    assert TopWalk(g, 0) == w1;
    var w2 := Walk([InitInfo(1, false, true), InitInfo(0, true, false), InitInfo(2, false, true)], 3, false);
    assert VisitLinks(g, [], MarkDangling(MarkVisited(w1, 2), 1)) == (MarkDangling(MarkVisited(w1, 2), 1), true);
    assert VisitLinks(g, g[2].dependents, MarkVisited(w1, 2)) == (MarkDangling(MarkVisited(w1, 2), 1), true);
    assert Visit(g, 2, w1) == w2;
    assert VisitDangling(g, 3, w2) == w2;
    assert VisitDangling(g, 2, w1) == w2;
    assert VisitDangling(g, 1, w1) == w2;
    assert VisitDangling(g, 0, w1) == w2;
  }
}
