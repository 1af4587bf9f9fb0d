/** Replaying the built bind patterns gives back the added binds. */
module BindRoundTrip {
  import opened Wrappers
  import opened MachineWords
  import opened BindPatterns

  /** The last entry ends at the last location remembered. */
  predicate PlaceSync(p: PointerSize, b: Builder)
  {
    b.entries != [] ==>
      var back := b.entries[|b.entries| - 1];
      && back.repeatCount >= 1
      && (back.repeatCount == 1 ==> back.skipCount == 0)
      && Location(p, back, back.repeatCount - 1) == b.lastOffset
  }

  /** It also carries the last target remembered. */
  predicate Sync(p: PointerSize, b: Builder)
  {
    PlaceSync(p, b) && (b.entries != [] ==> b.entries[|b.entries| - 1].target == b.lastTarget)
  }

  lemma ReplaySnoc(p: PointerSize, e: seq<BindPattern>, pat: BindPattern)
    ensures Replay(p, e + [pat]) == Replay(p, e) + Expand(p, pat, pat.repeatCount)
  {
    assert (e + [pat])[..|e|] == e;
  }

  lemma {:induction false} SkipIrrelevant(p: PointerSize, pat: BindPattern, skip: uint8, repeats: uint16)
    ensures Expand(p, pat.(skipCount := skip, repeatCount := repeats), 1) == Expand(p, pat, 1)
  {
    var alt := pat.(skipCount := skip, repeatCount := repeats);
    assert Location(p, alt, 0) == Location(p, pat, 0);
    assert Expand(p, alt, 0) == Expand(p, pat, 0);
  }

  lemma {:induction false} RepeatIrrelevant(p: PointerSize, pat: BindPattern, repeats: uint16, n: nat)
    ensures Expand(p, pat.(repeatCount := repeats), n) == Expand(p, pat, n)
    ensures Location(p, pat.(repeatCount := repeats), n) == Location(p, pat, n)
  {
    if n > 0 { RepeatIrrelevant(p, pat, repeats, n - 1); }
  }

  /** An aligned gap is a whole number of pointers beyond the next one. */
  lemma AlignedGap(p: PointerSize, b: Builder, offset: uint64)
    requires offset > b.lastOffset
    requires Pointers(p, SkipAmount(p, b, offset)) == Gap(p, b, offset) && SkipAmount(p, b, offset) <= 255
    ensures Wrap64(b.lastOffset + Pointers(p, 1 + SkipAmount(p, b, offset))) == offset
  {
  }

  /** Turning a single bind into a run of two appends one bind. */
  lemma StartRun(p: PointerSize, front: seq<BindPattern>, back: BindPattern, skip: uint8)
    requires back.repeatCount == 1
    ensures var now := back.(repeatCount := 2, skipCount := skip);
            && Location(p, now, 1) == Wrap64(Location(p, back, 0) + Pointers(p, 1 + skip))
            && Replay(p, front + [now]) == Replay(p, front + [back]) + [(Location(p, now, 1), back.target)]
  {
    hide Replay;
    var now := back.(repeatCount := 2, skipCount := skip);
    SkipIrrelevant(p, back, skip, 2);
    ReplaySnoc(p, front, back);
    ReplaySnoc(p, front, now);
    assert Location(p, now, 0) == Location(p, back, 0);
    assert Expand(p, now, 2) == Expand(p, now, 1) + [(Location(p, now, 1), back.target)];
  }

  /** One more repetition of a run appends one bind. */
  lemma ExtendRun(p: PointerSize, front: seq<BindPattern>, back: BindPattern)
    requires 1 <= back.repeatCount < 0xffff
    ensures var n := back.repeatCount;
            var now := back.(repeatCount := n + 1);
            && Location(p, now, n) == Wrap64(Location(p, back, n - 1) + Pointers(p, 1 + back.skipCount))
            && Replay(p, front + [now]) == Replay(p, front + [back]) + [(Location(p, now, n), back.target)]
  {
    hide Replay;
    var n := back.repeatCount;
    RepeatIrrelevant(p, back, n + 1, n);
    RepeatIrrelevant(p, back, n + 1, n - 1);
    ReplaySnoc(p, front, back);
    ReplaySnoc(p, front, back.(repeatCount := n + 1));
  }

  /** The target an ordinary addition binds: that of the last entry when it is merged into it. */
  function BoundTarget(p: PointerSize, b: Builder, offset: uint64, target: Target): Target
  {
    if Merges(p, b, offset, target) then b.entries[|b.entries| - 1].target else target
  }

  /** One ordinary addition appends one bind, or none when it directly repeats the last one. */
  lemma AppendPlaced(p: PointerSize, b: Builder, offset: uint64, target: Target)
    requires PlaceSync(p, b) && Accepts(p, b, offset, target, false)
    ensures PlaceSync(p, Added(p, b, offset, target, false))
    ensures Replay(p, AppendEntries(p, b, offset, target))
         == Replay(p, b.entries)
            + if Duplicate(b, offset, target) then [] else [(offset, BoundTarget(p, b, offset, target))]
  {
    hide Replay, SkipAmount, Gap, Location;
    var e := b.entries;
    PushOne(p, e, offset, target);
    if Aligns(p, b, offset, target) && (StartsRun(p, b, offset) || ExtendsRun(p, b, offset)) {
      var front, back := e[..|e| - 1], e[|e| - 1];
      assert e == front + [back];
      AlignedGap(p, b, offset);
      if StartsRun(p, b, offset) {
        StartRun(p, front, back, SkipAmount(p, b, offset));
      } else {
        ExtendRun(p, front, back);
      }
    }
  }

  /** In step with its last entry, the builder appends the added bind itself. */
  lemma AppendStep(p: PointerSize, b: Builder, offset: uint64, target: Target)
    requires Sync(p, b) && Accepts(p, b, offset, target, false)
    ensures Sync(p, Added(p, b, offset, target, false))
    ensures Replay(p, AppendEntries(p, b, offset, target))
         == Replay(p, b.entries) + if Duplicate(b, offset, target) then [] else [(offset, target)]
  {
    hide Replay, SkipAmount, Gap, Location, PlaceSync;
    AppendPlaced(p, b, offset, target);
  }

  lemma PushOne(p: PointerSize, e: seq<BindPattern>, offset: uint64, target: Target)
    ensures offset < 0x100_0000_0000 ==>
              && Location(p, BindPattern(target, offset, 0, 1), 0) == offset
              && Replay(p, e + [BindPattern(target, offset, 0, 1)]) == Replay(p, e) + [(offset, target)]
  {
    if offset < 0x100_0000_0000 {
      var pat := BindPattern(target, offset, 0, 1);
      ReplaySnoc(p, e, pat);
      assert Expand(p, pat, 1) == Expand(p, pat, 0) + [(Location(p, pat, 0), target)];
    }
  }

  // ----- whole runs without coalescing ----------------------------------------------------

  /** The builder after a run of additions, or a failed 40-bit assertion. */
  datatype Outcome = Aborted | Built(b: Builder)

  function Build(p: PointerSize, adds: seq<Bind>): Outcome
  {
    if adds == [] then Built(Fresh(p)) else
    var (offset, target) := adds[|adds| - 1];
    match Build(p, adds[..|adds| - 1])
    case Aborted => Aborted
    case Built(b) => if Accepts(p, b, offset, target, false) then Built(Added(p, b, offset, target, false)) else Aborted
  }

  /** The additions with immediate repetitions dropped. */
  function Distinct(adds: seq<Bind>): seq<Bind>
  {
    if |adds| <= 1 then adds
    else if adds[|adds| - 1] == adds[|adds| - 2] then Distinct(adds[..|adds| - 1])
    else Distinct(adds[..|adds| - 1]) + [adds[|adds| - 1]]
  }

  /** Whatever the gaps, a run the encoder accepts replays to exactly the distinct additions. */
  lemma {:induction false} BindRoundTrip(p: PointerSize, adds: seq<Bind>)
    requires Build(p, adds).Built?
    ensures Replay(p, Build(p, adds).b.entries) == Distinct(adds)
    ensures Sync(p, Build(p, adds).b)
    ensures adds != [] ==> var b := Build(p, adds).b; b.entries != [] && (b.lastOffset, b.lastTarget) == adds[|adds| - 1]
  {
    if adds != [] {
      hide Replay, Sync, Accepts, Duplicate;
      var front := adds[..|adds| - 1];
      var (offset, target) := adds[|adds| - 1];
      BindRoundTrip(p, front);
      var b := Build(p, front).b;
      AppendStep(p, b, offset, target);
      Appended(p, b, offset, target);
      DistinctStep(adds);
    }
  }

  lemma Appended(p: PointerSize, b: Builder, offset: uint64, target: Target)
    requires Accepts(p, b, offset, target, false)
    ensures AppendEntries(p, b, offset, target) != []
    ensures Duplicate(b, offset, target) <==> b.entries != [] && (offset, target) == (b.lastOffset, b.lastTarget)
  {
  }

  lemma DistinctStep(adds: seq<Bind>)
    requires adds != []
    ensures var front := adds[..|adds| - 1];
            Distinct(adds) == Distinct(front)
              + if front != [] && adds[|adds| - 1] == front[|front| - 1] then [] else [adds[|adds| - 1]]
  {
  }

  /** Every run of additions under 2^40 is accepted. */
  lemma {:induction false} SmallOffsetsAccepted(p: PointerSize, adds: seq<Bind>)
    requires forall i :: 0 <= i < |adds| ==> adds[i].0 < 0x100_0000_0000
    ensures Build(p, adds).Built?
  {
    if adds != [] {
      SmallOffsetsAccepted(p, adds[..|adds| - 1]);
      assert adds[|adds| - 1].0 < 0x100_0000_0000;
    }
  }

  // ----- weak-def coalescing ---------------------------------------------------------------

  /** What the binds leave in memory: the last target bound at each location. */
  function Meaning(binds: seq<Bind>): map<uint64, Target>
  {
    if binds == [] then map[] else Meaning(binds[..|binds| - 1])[binds[|binds| - 1].0 := binds[|binds| - 1].1]
  }

  /** Some bind after position `i` covers the same location. */
  predicate CoveredLater(binds: seq<Bind>, i: nat)
    requires i < |binds|
  {
    exists j :: i < j < |binds| && binds[j].0 == binds[i].0
  }

  lemma {:induction false} MeaningHas(binds: seq<Bind>, i: nat)
    requires i < |binds|
    ensures binds[i].0 in Meaning(binds)
  {
    if i < |binds| - 1 { MeaningHas(binds[..|binds| - 1], i); }
  }

  lemma {:induction false} MeaningUpdate(binds: seq<Bind>, i: nat, target: Target)
    requires i < |binds|
    ensures Meaning(binds[i := (binds[i].0, target)])
         == if CoveredLater(binds, i) then Meaning(binds) else Meaning(binds)[binds[i].0 := target]
  {
    var n, front := |binds| - 1, binds[..|binds| - 1];
    var now := binds[i := (binds[i].0, target)];
    if i == n {
      assert now[..n] == front;
    } else {
      MeaningUpdate(front, i, target);
      assert now[..n] == front[i := (front[i].0, target)];
      assert forall j :: 0 <= j < n ==> front[j] == binds[j];
      assert CoveredLater(front, i) || binds[n].0 == binds[i].0 <==> CoveredLater(binds, i) by {
        if CoveredLater(binds, i) && binds[n].0 != binds[i].0 {
          var j :| i < j < |binds| && binds[j].0 == binds[i].0;
          assert i < j < |front| && front[j].0 == front[i].0;
        }
      }
    }
  }

  lemma {:induction false} ReplayRetarget(p: PointerSize, e: seq<BindPattern>, k: nat, target: Target)
    requires k < |e| && e[k].repeatCount == 1
    ensures var i := |Replay(p, e[..k])|;
            && i < |Replay(p, e)| && Replay(p, e)[i] == (e[k].startVmOffset, e[k].target)
            && Replay(p, e[k := e[k].(target := target)]) == Replay(p, e)[i := (e[k].startVmOffset, target)]
  {
    var n, front := |e| - 1, e[..|e| - 1];
    var now := e[k := e[k].(target := target)];
    if k == n {
      assert now[..n] == front == e[..k];
      ExpandOne(p, e[k]);
      ExpandOne(p, now[k]);
    } else {
      ReplayRetarget(p, front, k, target);
      assert e[n] == now[n];
      assert now[..n] == front[k := front[k].(target := target)];
      assert front[..k] == e[..k];
    }
  }

  lemma ExpandOne(p: PointerSize, pat: BindPattern)
    ensures Expand(p, pat, 1) == [(pat.startVmOffset, pat.target)]
  {
    assert Expand(p, pat, 0) == [];
    assert Location(p, pat, 0) == pat.startVmOffset;
  }

  /** A coalesced addition rebinds its location exactly when no later pattern covers it
      (or the location already has that target). */
  lemma CoalesceExactly(p: PointerSize, b: Builder, offset: uint64, target: Target)
    requires Coalesced(b.entries, offset) < |b.entries|
    ensures var was, i := Replay(p, b.entries), |Replay(p, b.entries[..Coalesced(b.entries, offset)])|;
            var now := Replay(p, Added(p, b, offset, target, true).entries);
            && i < |was| && offset in Meaning(was)
            && (Meaning(now) == Meaning(was)[offset := target] <==>
                  !CoveredLater(was, i) || Meaning(was)[offset] == target)
  {
    hide Replay, Meaning;
    var k := Coalesced(b.entries, offset);
    ReplayRetarget(p, b.entries, k, target);
    var was, i := Replay(p, b.entries), |Replay(p, b.entries[..k])|;
    MeaningHas(was, i);
    MeaningUpdate(was, i, target);
    if CoveredLater(was, i) && Meaning(was) == Meaning(was)[offset := target] {
      assert Meaning(was)[offset] == target;
    }
  }

  /** Coalescing keeps the builder in step exactly when it does not retarget the last entry. */
  lemma CoalesceSync(p: PointerSize, b: Builder, offset: uint64, target: Target)
    requires Sync(p, b) && Coalesced(b.entries, offset) < |b.entries|
    ensures Sync(p, Added(p, b, offset, target, true)) <==>
              Coalesced(b.entries, offset) < |b.entries| - 1 || target == b.lastTarget
  {
    var k := Coalesced(b.entries, offset);
    if k == |b.entries| - 1 {
      var back := b.entries[k];
      assert Location(p, back.(target := target), 0) == Location(p, back, 0);
    }
  }

  lemma LastBind(p: PointerSize, b: Builder)
    requires PlaceSync(p, b) && b.entries != []
    ensures var binds := Replay(p, b.entries);
            binds != [] && binds[|binds| - 1] == (b.lastOffset, b.entries[|b.entries| - 1].target)
  {
    var back := b.entries[|b.entries| - 1];
    assert Expand(p, back, back.repeatCount)[|Expand(p, back, back.repeatCount)| - 1]
        == (Location(p, back, back.repeatCount - 1), back.target);
  }

  /** An ordinary addition rebinds its location and nothing else exactly when it is not merged into an entry
      whose target has been changed meanwhile. */
  lemma PlainExactly(p: PointerSize, b: Builder, offset: uint64, target: Target)
    requires PlaceSync(p, b) && Accepts(p, b, offset, target, false)
    ensures Meaning(Replay(p, Added(p, b, offset, target, false).entries)) == Meaning(Replay(p, b.entries))[offset := target]
       <==> (Merges(p, b, offset, target) ==> b.entries[|b.entries| - 1].target == target)
  {
    hide Replay, PlaceSync, AppendEntries, Accepts, Aligns, StartsRun, ExtendsRun;
    var binds := Replay(p, b.entries);
    var bound := BoundTarget(p, b, offset, target);
    AppendPlaced(p, b, offset, target);
    assert Replay(p, Added(p, b, offset, target, false).entries)
        == binds + if Duplicate(b, offset, target) then [] else [(offset, bound)];
    assert (binds + [(offset, bound)])[..|binds|] == binds;
    if Duplicate(b, offset, target) {
      LastBind(p, b);
      assert binds + [] == binds;
      assert Meaning(binds)[offset] == bound;
      assert Meaning(binds)[offset := bound] == Meaning(binds);
    }
    OneUpdate(Meaning(binds), offset, bound, target);
  }

  lemma OneUpdate(m: map<uint64, Target>, offset: uint64, bound: Target, target: Target)
    ensures m[offset := bound] == m[offset := target] <==> bound == target
  {
    assert m[offset := bound][offset] == bound && m[offset := target][offset] == target;
  }

  lemma AcceptsPlain(p: PointerSize, b: Builder, offset: uint64, target: Target, weak: bool)
    requires Accepts(p, b, offset, target, weak) && !(weak && Coalesced(b.entries, offset) < |b.entries|)
    ensures Accepts(p, b, offset, target, false)
  {
  }

  datatype Addition = Addition(offset: uint64, target: Target, weak: bool)

  /** The addition changes an earlier bind in place. */
  predicate Coalesces(b: Builder, a: Addition)
  {
    a.weak && Coalesced(b.entries, a.offset) < |b.entries|
  }

  /** What can be checked before an addition: a bind changed in place is not covered by a later pattern
      (unless the location has the target already), and an entry merged into has the target added. */
  predicate StepGuard(p: PointerSize, b: Builder, a: Addition)
  {
    if Coalesces(b, a) then
      var binds, i := Replay(p, b.entries), |Replay(p, b.entries[..Coalesced(b.entries, a.offset)])|;
      i < |binds| && (!CoveredLater(binds, i) || (a.offset, a.target) in Meaning(binds).Items)
    else
      Merges(p, b, a.offset, a.target) ==> b.entries[|b.entries| - 1].target == a.target
  }

  /** The addition rebinds its location and nothing else. */
  predicate Rebinds(p: PointerSize, b: Builder, a: Addition)
    requires Accepts(p, b, a.offset, a.target, a.weak)
  {
    Meaning(Replay(p, Added(p, b, a.offset, a.target, a.weak).entries)) == Meaning(Replay(p, b.entries))[a.offset := a.target]
  }

  lemma CoalescedPlace(p: PointerSize, b: Builder, offset: uint64, target: Target)
    requires PlaceSync(p, b) && Coalesced(b.entries, offset) < |b.entries|
    ensures PlaceSync(p, Added(p, b, offset, target, true))
  {
    var k := Coalesced(b.entries, offset);
    if k == |b.entries| - 1 {
      assert Location(p, b.entries[k].(target := target), 0) == Location(p, b.entries[k], 0);
    }
  }

  /** Any addition keeps the builder in its place, and rebinds its location and nothing else exactly when it
      meets its guard. */
  lemma MeaningStep(p: PointerSize, b: Builder, a: Addition)
    requires PlaceSync(p, b) && Accepts(p, b, a.offset, a.target, a.weak)
    ensures PlaceSync(p, Added(p, b, a.offset, a.target, a.weak))
    ensures Rebinds(p, b, a) <==> StepGuard(p, b, a)
  {
    hide Replay, Meaning, PlaceSync, AppendEntries, Accepts, Merges;
    if Coalesces(b, a) {
      CoalesceExactly(p, b, a.offset, a.target);
      CoalescedPlace(p, b, a.offset, a.target);
    } else {
      assert Accepts(p, b, a.offset, a.target, false) by { AcceptsPlain(p, b, a.offset, a.target, a.weak); }
      AppendPlaced(p, b, a.offset, a.target);
      PlainExactly(p, b, a.offset, a.target);
    }
  }

  function BuildMixed(p: PointerSize, adds: seq<Addition>): Outcome
  {
    if adds == [] then Built(Fresh(p)) else
    var a := adds[|adds| - 1];
    match BuildMixed(p, adds[..|adds| - 1])
    case Aborted => Aborted
    case Built(b) =>
      if Accepts(p, b, a.offset, a.target, a.weak) then Built(Added(p, b, a.offset, a.target, a.weak)) else Aborted
  }

  /** Every addition of the run rebound its location and nothing else. */
  predicate EachRebinds(p: PointerSize, adds: seq<Addition>)
    requires BuildMixed(p, adds).Built?
  {
    adds == [] ||
    var front := adds[..|adds| - 1];
    EachRebinds(p, front) && Rebinds(p, BuildMixed(p, front).b, adds[|adds| - 1])
  }

  /** Every addition of the run met its guard. */
  predicate EachGuarded(p: PointerSize, adds: seq<Addition>)
    requires BuildMixed(p, adds).Built?
  {
    adds == [] ||
    var front := adds[..|adds| - 1];
    EachGuarded(p, front) && StepGuard(p, BuildMixed(p, front).b, adds[|adds| - 1])
  }

  /** The last addition to each location wins. */
  function FinalTargets(adds: seq<Addition>): map<uint64, Target>
  {
    if adds == [] then map[] else FinalTargets(adds[..|adds| - 1])[adds[|adds| - 1].offset := adds[|adds| - 1].target]
  }

  /** Over every run of additions, weak or not: all of them do what they should exactly when each meets its
      guard, and then every location ends up with the last target added to it. */
  lemma {:induction false} MixedRun(p: PointerSize, adds: seq<Addition>)
    requires BuildMixed(p, adds).Built?
    ensures PlaceSync(p, BuildMixed(p, adds).b)
    ensures EachRebinds(p, adds) <==> EachGuarded(p, adds)
    ensures EachRebinds(p, adds) ==> Meaning(Replay(p, BuildMixed(p, adds).b.entries)) == FinalTargets(adds)
  {
    if adds != [] {
      hide Replay, Meaning, PlaceSync, Accepts, Added, StepGuard;
      MixedRun(p, adds[..|adds| - 1]);
      MeaningStep(p, BuildMixed(p, adds[..|adds| - 1]).b, adds[|adds| - 1]);
    }
  }

  /** Retargeting the last entry leaves the remembered target stale: a later bind to the old
      target is merged into the retargeted entry and gets the wrong target. */
  lemma StaleTarget()
    ensures var b0 := Fresh(8);
            && Accepts(8, b0, 0x1000, 7, false) && var b1 := Added(8, b0, 0x1000, 7, false);
            && Accepts(8, b1, 0x1000, 9, true) && var b2 := Added(8, b1, 0x1000, 9, true);
            && Accepts(8, b2, 0x1008, 7, false) && var b3 := Added(8, b2, 0x1008, 7, false);
               Replay(8, b3.entries) == [(0x1000, 9), (0x1008, 9)]
  {
    var b1 := Builder([BindPattern(7, 0x1000, 0, 1)], 0x1000, 7);
    assert Added(8, Fresh(8), 0x1000, 7, false) == b1;
    assert Coalesced(b1.entries, 0x1000) == 0;
    var b2 := Builder([BindPattern(9, 0x1000, 0, 1)], 0x1000, 7);
    assert Added(8, b1, 0x1000, 9, true) == b2;
    var pat := BindPattern(9, 0x1000, 0, 2);
    assert Added(8, b2, 0x1008, 7, false).entries == [pat];
    assert [pat][..0] == [];
    assert Expand(8, pat, 2) == Expand(8, pat, 1) + [(Location(8, pat, 1), 9)];
    ExpandOne(8, pat);
    assert Location(8, pat, 1) == Wrap64(Location(8, pat, 0) + 8);
    ReplaySnoc(8, [], pat);
    assert [] + [pat] == [pat];
  }
}
