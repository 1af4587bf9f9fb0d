/** What the initializer-order walk establishes, for every graph. */
module InitOrderProofs {
  import opened ImageGraph
  import opened InitOrder

  predicate Seen(w: Walk, k: nat) { k < |w.infos| && w.infos[k].visited }

  predicate Done(w: Walk, k: nat) { k < |w.infos| && w.infos[k].initOrder > 0 }

  /** Entered but not finished: the images on the walk's stack. */
  predicate Gray(w: Walk, k: nat) { Seen(w, k) && !Done(w, k) }

  predicate Dangling(w: Walk, k: nat) { k < |w.infos| && w.infos[k].danglingUpward }

  function Order(w: Walk, k: nat): nat
    requires k < |w.infos|
  {
    w.infos[k].initOrder
  }

  ghost function Unfinished(w: Walk): set<nat>
  {
    set k: nat | k < |w.infos| && w.infos[k].initOrder == 0
  }

  // ----- the walk invariant ----------------------------------------------------------------

  /** Orders are handed out once each, in the width of the field, to entered images that are not bad. */
  ghost predicate Orderly(g: Graph, w: Walk)
  {
    && |w.infos| == |g| < 0x4000_0000
    && w.nextOrder >= 1
    && w.nextOrder + |Unfinished(w)| == |g| + 1
    && (forall k: nat :: Done(w, k) ==> Seen(w, k) && Order(w, k) < w.nextOrder && !g[k].isBadImage)
    && (forall j: nat, k: nat :: Done(w, j) && Done(w, k) && j != k ==> Order(w, j) != Order(w, k))
  }

  /** A finished image follows its downward links, except those that lead back to it. */
  ghost predicate Follows(g: Graph, w: Walk)
  {
    forall u: nat, v: nat :: Done(w, u) && LinksTo(g, u, v, false) ==>
      Seen(w, v) && (Reaches(g, v, u) || (Done(w, v) && Order(w, v) < Order(w, u)))
  }

  /** Upward targets of finished images are entered or marked. */
  ghost predicate Marks(g: Graph, w: Walk)
  {
    forall u: nat, v: nat :: Done(w, u) && LinksTo(g, u, v, true) ==> Seen(w, v) || Dangling(w, v)
  }

  ghost predicate Good(g: Graph, w: Walk)
  {
    |w.infos| == |g| && Orderly(g, w) && Follows(g, w) && Marks(g, w) && !w.hasError
  }

  /** All images on the stack reach `i`. */
  ghost predicate StackReaches(g: Graph, w: Walk, i: nat)
  {
    forall k: nat :: Gray(w, k) ==> Reaches(g, k, i)
  }

  /** From `w` to `r` nothing entered, finished or marked is forgotten, the stack is the same,
      and everything newly entered is reachable from `i`. */
  ghost predicate Grown(g: Graph, w: Walk, r: Walk, i: nat)
  {
    && |r.infos| == |w.infos|
    && (forall k: nat :: Seen(w, k) ==> Seen(r, k))
    && (forall k: nat :: Done(w, k) ==> Done(r, k) && Order(r, k) == Order(w, k))
    && (forall k: nat :: Dangling(w, k) ==> Dangling(r, k) || Seen(r, k))
    && (forall k: nat :: Gray(r, k) <==> Gray(w, k))
    && (forall k: nat :: Seen(r, k) && !Seen(w, k) ==> Reaches(g, i, k))
  }

  ghost predicate BadBelow(g: Graph, i: nat)
  {
    exists k: nat :: k < |g| && Reaches(g, i, k) && g[k].isBadImage
  }

  /** The links of the list have been followed or marked. */
  ghost predicate LinksHandled(g: Graph, deps: seq<LinkedImage>, w: Walk)
  {
    forall k: nat, v: nat, up :: k < |deps| && IsLink(g, deps[k], v, up) ==> Seen(w, v) || (up && Dangling(w, v))
  }

  lemma GrownTrans(g: Graph, a: Walk, b: Walk, c: Walk, i: nat)
    requires Grown(g, a, b, i) && Grown(g, b, c, i)
    ensures Grown(g, a, c, i)
  {
  }

  lemma GrownFrom(g: Graph, a: Walk, b: Walk, i: nat, j: nat)
    requires Grown(g, a, b, j) && LinksTo(g, i, j, false)
    ensures Grown(g, a, b, i)
  {
    forall k: nat | Seen(b, k) && !Seen(a, k) ensures Reaches(g, i, k) { StepReaches(g, i, j, k); }
  }

  lemma MarkDanglingGood(g: Graph, w: Walk, j: nat, i: nat)
    requires Good(g, w) && j < |g|
    ensures Good(g, MarkDangling(w, j)) && Grown(g, w, MarkDangling(w, j), i)
    ensures Seen(MarkDangling(w, j), j) || Dangling(MarkDangling(w, j), j)
  {
    var m := MarkDangling(w, j);
    assert Unfinished(m) == Unfinished(w);
    assert forall k: nat :: Done(m, k) <==> Done(w, k);
    assert forall k: nat :: Done(m, k) ==> Order(m, k) == Order(w, k);
    assert forall k: nat :: Seen(m, k) <==> Seen(w, k);
    assert forall k: nat :: Dangling(w, k) ==> Dangling(m, k);
  }

  lemma EnterGood(g: Graph, w: Walk, i: nat)
    requires Good(g, w) && i < |g| && !w.infos[i].visited
    ensures Good(g, MarkVisited(w, i)) && Gray(MarkVisited(w, i), i)
    ensures forall k: nat :: k != i ==> (Seen(MarkVisited(w, i), k) <==> Seen(w, k)) && (Dangling(MarkVisited(w, i), k) <==> Dangling(w, k))
    ensures forall k: nat :: Done(MarkVisited(w, i), k) <==> Done(w, k)
    ensures forall k: nat :: Done(w, k) ==> Order(MarkVisited(w, i), k) == Order(w, k)
  {
    var m := MarkVisited(w, i);
    assert Unfinished(m) == Unfinished(w);
    assert forall k: nat :: Done(m, k) <==> Done(w, k);
    assert forall k: nat :: Done(m, k) ==> Order(m, k) == Order(w, k);
  }

  /** Finishing an image whose links have all been handled keeps the invariant. */
  lemma FinishGood(g: Graph, w: Walk, i: nat)
    requires Good(g, w) && Gray(w, i) && !g[i].isBadImage
    requires StackReaches(g, w, i) && LinksHandled(g, g[i].dependents, w)
    ensures Good(g, Finish(w, i))
    ensures forall k: nat :: k != i ==> (Done(Finish(w, i), k) <==> Done(w, k))
    ensures forall k: nat :: Done(w, k) ==> Order(Finish(w, i), k) == Order(w, k)
    ensures forall k: nat :: (Seen(Finish(w, i), k) <==> Seen(w, k)) && (Dangling(Finish(w, i), k) <==> Dangling(w, k))
    ensures Done(Finish(w, i), i)
  {
    var r := Finish(w, i);
    assert Unfinished(r) == Unfinished(w) - {i} && i in Unfinished(w);
    assert r.infos[i].initOrder == w.nextOrder;
    assert forall k: nat :: Done(r, k) <==> Done(w, k) || k == i;
    assert forall k: nat :: Done(w, k) ==> Order(r, k) == Order(w, k);
    assert forall k: nat :: Seen(r, k) <==> Seen(w, k);
    assert forall k: nat :: Dangling(r, k) <==> Dangling(w, k);
    assert Orderly(g, r);
    forall u: nat, v: nat | Done(r, u) && LinksTo(g, u, v, false)
      ensures Seen(r, v) && (Reaches(g, v, u) || (Done(r, v) && Order(r, v) < Order(r, u)))
    {
      if u == i {
        var k :| 0 <= k < |g[i].dependents| && IsLink(g, g[i].dependents[k], v, false);
        assert Seen(w, v);
        assert Gray(w, v) || Done(w, v);
      }
    }
    forall u: nat, v: nat | Done(r, u) && LinksTo(g, u, v, true) ensures Seen(r, v) || Dangling(r, v) {
      if u == i {
        var k :| 0 <= k < |g[i].dependents| && IsLink(g, g[i].dependents[k], v, true);
      }
    }
  }

  /** Entering an image, walking below it and finishing it changes nothing else on the stack. */
  lemma EnterFinishGrown(g: Graph, w: Walk, i: nat, below: Walk)
    requires Good(g, w) && i < |g| && !w.infos[i].visited && !g[i].isBadImage
    requires Good(g, below) && Grown(g, MarkVisited(w, i), below, i)
    requires StackReaches(g, below, i) && LinksHandled(g, g[i].dependents, below)
    ensures Gray(below, i)
    ensures Grown(g, w, Finish(below, i), i)
  {
    hide Orderly, Follows, Marks, Reaches, LinksTo, LinksHandled;
    var entered, r := MarkVisited(w, i), Finish(below, i);
    EnterGood(g, w, i);
    assert Gray(below, i);
    FinishGood(g, below, i);
    forall k: nat ensures Gray(r, k) <==> Gray(w, k) {
      assert Gray(below, k) <==> Gray(entered, k);
    }
    ReachesSelf(g, i);
    forall k: nat | Seen(r, k) && !Seen(w, k) ensures Reaches(g, i, k) {
      if k != i { assert Seen(below, k) && !Seen(entered, k); }
    }
  }

  // ----- the two mutually recursive functions -------------------------------------------------

  lemma {:induction false} VisitGood(g: Graph, i: nat, w: Walk)
    requires Linked(g) && i < |g| && Good(g, w) && StackReaches(g, w, i)
    ensures var r := Visit(g, i, w);
            if r.hasError then BadBelow(g, i)
            else Good(g, r) && Grown(g, w, r, i) && Seen(r, i)
    decreases Unvisited(w.infos), 0, 0
  {
    hide Orderly, Follows, Marks, Reaches;
    ReachesSelf(g, i);
    if w.infos[i].visited {
    } else if g[i].isBadImage {
    } else {
      var entered := MarkVisited(w, i);
      assert i in Unvisited(w.infos) && i !in Unvisited(entered.infos);
      EnterGood(g, w, i);
      assert StackReaches(g, entered, i);
      VisitLinksGood(g, i, g[i].dependents, entered);
      var (below, completed) := VisitLinks(g, g[i].dependents, entered);
      if completed {
        assert Gray(below, i) && StackReaches(g, below, i);
        FinishGood(g, below, i);
        EnterFinishGrown(g, w, i, below);
      }
    }
  }

  lemma {:induction false} VisitLinksGood(g: Graph, i: nat, deps: seq<LinkedImage>, w: Walk)
    requires Linked(g) && i < |g| && Good(g, w) && Gray(w, i) && StackReaches(g, w, i)
    requires forall k :: 0 <= k < |deps| ==> Resolves(g, deps[k]) && deps[k] in g[i].dependents
    ensures var (r, completed) := VisitLinks(g, deps, w);
            if completed then Good(g, r) && Grown(g, w, r, i) && LinksHandled(g, deps, r)
            else r.hasError && BadBelow(g, i)
    decreases Unvisited(w.infos), 1, |deps|
  {
    hide Orderly, Follows, Marks, Reaches, LinksTo;
    if deps != [] {
      var rest := deps[1..];
      if deps[0].imageNum == MISSING_WEAK_LINKED_IMAGE {
        VisitLinksGood(g, i, rest, w);
        Continue(g, i, deps, w, w);
      } else {
        assert Resolves(g, deps[0]);
        var j := FindLoaded(g, deps[0].imageNum);
        if deps[0].kind.Upward? {
          var m := MarkDangling(w, j);
          MarkDanglingGood(g, w, j, i);
          assert Unvisited(m.infos) == Unvisited(w.infos);
          VisitLinksGood(g, i, rest, m);
          Continue(g, i, deps, w, m);
        } else {
          HeadLink(g, i, deps, j);
          StackStep(g, w, i, j);
          VisitGood(g, j, w);
          var after := Visit(g, j, w);
          if after.hasError {
            BadStep(g, i, j);
          } else {
            GrownFrom(g, w, after, i, j);
            VisitLinksGood(g, i, rest, after);
            Continue(g, i, deps, w, after);
          }
        }
      }
    }
  }

  lemma HeadLink(g: Graph, i: nat, deps: seq<LinkedImage>, j: nat)
    requires i < |g| && deps != [] && deps[0] in g[i].dependents
    requires deps[0].imageNum != MISSING_WEAK_LINKED_IMAGE && !deps[0].kind.Upward?
    requires j == FindLoaded(g, deps[0].imageNum) < |g|
    ensures LinksTo(g, i, j, false)
  {
    var k :| 0 <= k < |g[i].dependents| && g[i].dependents[k] == deps[0];
    assert IsLink(g, g[i].dependents[k], j, false);
  }

  lemma StackStep(g: Graph, w: Walk, i: nat, j: nat)
    requires StackReaches(g, w, i) && LinksTo(g, i, j, false) && j < |g|
    ensures StackReaches(g, w, j)
  {
    forall k: nat | Gray(w, k) ensures Reaches(g, k, j) { ReachesStep(g, k, i, j); }
  }

  lemma BadStep(g: Graph, i: nat, j: nat)
    requires LinksTo(g, i, j, false) && BadBelow(g, j)
    ensures BadBelow(g, i)
  {
    var k: nat :| k < |g| && Reaches(g, j, k) && g[k].isBadImage;
    StepReaches(g, i, j, k);
  }

  /** From `a` the first link leads to `b`; handling the rest from there handles the whole list. */
  lemma Continue(g: Graph, i: nat, deps: seq<LinkedImage>, a: Walk, b: Walk)
    requires Linked(g) && |b.infos| == |g| && deps != [] && forall k :: 0 <= k < |deps| ==> Resolves(g, deps[k])
    requires Grown(g, a, b, i)
    requires deps[0].imageNum != MISSING_WEAK_LINKED_IMAGE ==>
               var j := FindLoaded(g, deps[0].imageNum); Seen(b, j) || (deps[0].kind.Upward? && Dangling(b, j))
    ensures var r := VisitLinks(g, deps[1..], b).0;
            Grown(g, b, r, i) && LinksHandled(g, deps[1..], r) ==> Grown(g, a, r, i) && LinksHandled(g, deps, r)
  {
    hide VisitLinks, Reaches;
    var r := VisitLinks(g, deps[1..], b).0;
    if Grown(g, b, r, i) && LinksHandled(g, deps[1..], r) {
      GrownTrans(g, a, b, r, i);
      forall k: nat, v: nat, up | k < |deps| && IsLink(g, deps[k], v, up) ensures Seen(r, v) || (up && Dangling(r, v)) {
        if k > 0 { assert deps[1..][k - 1] == deps[k]; }
      }
    }
  }

  // ----- the whole walk ------------------------------------------------------------------------

  lemma {:induction false} BlankUnfinished(w: Walk)
    requires forall k :: 0 <= k < |w.infos| ==> w.infos[k].initOrder == 0
    ensures |Unfinished(w)| == |w.infos|
    decreases |w.infos|
  {
    if w.infos != [] {
      var n := |w.infos| - 1;
      var front := w.(infos := w.infos[..n]);
      BlankUnfinished(front);
      assert Unfinished(w) == Unfinished(front) + {n};
    }
  }

  lemma BlankGood(g: Graph)
    requires |g| < 0x4000_0000
    ensures var w := Walk(seq(|g|, _ => BLANK), 1, false); Good(g, w) && forall k: nat :: !Seen(w, k) && !Dangling(w, k)
  {
    var w := Walk(seq(|g|, _ => BLANK), 1, false);
    BlankUnfinished(w);
    assert forall k: nat :: !Done(w, k) && !Seen(w, k);
  }

  ghost predicate NoGray(w: Walk)
  {
    forall k: nat :: !Gray(w, k)
  }

  /** The walk below the top image succeeds exactly when no bad image is reachable, and then enters
      and finishes exactly the reachable images. */
  lemma TopWalkExact(g: Graph, top: nat)
    requires Linked(g) && top < |g| < 0x4000_0000
    ensures var w := TopWalk(g, top);
            && (w.hasError <==> BadBelow(g, top))
            && (!w.hasError ==> Good(g, w) && NoGray(w) && forall k: nat :: Seen(w, k) <==> Reaches(g, top, k))
  {
    hide Reaches, Orderly, Marks, Visit;
    BlankGood(g);
    var blank := Walk(seq(|g|, _ => BLANK), 1, false);
    VisitGood(g, top, blank);
    var w := TopWalk(g, top);
    if !w.hasError {
      assert NoGray(w);
      forall k: nat | Reaches(g, top, k) ensures Seen(w, k) { ReachableSeen(g, w, top, k); }
      forall k: nat | k < |g| && Reaches(g, top, k) ensures !g[k].isBadImage {
        assert Seen(w, k) && !Gray(w, k);
        DoneNotBad(g, w, k);
      }
    }
  }

  lemma DoneNotBad(g: Graph, w: Walk, k: nat)
    requires Good(g, w) && Done(w, k)
    ensures !g[k].isBadImage
  {
  }

  lemma ReachableSeen(g: Graph, w: Walk, u: nat, v: nat)
    requires Good(g, w) && NoGray(w) && Seen(w, u) && Reaches(g, u, v)
    ensures Seen(w, v)
  {
    hide Reaches, LinksTo;
    var s := set k: nat | k < |w.infos| && Seen(w, k);
    forall a: nat, b: nat | a in s && LinksTo(g, a, b, false) ensures b in s {
      assert !Gray(w, a) && Done(w, a);
    }
    ClosedContainsReachable(g, s, u, v);
  }
}
