/** Replaying the built rebase patterns gives back the added locations, and exactly when. */
module RebaseRoundTrip {
  import opened Wrappers
  import opened MachineWords
  import opened RebasePatterns

  // ----- invariants of the builder --------------------------------------------------------

  /** The last entry always covers one still-growing run of pointers. */
  predicate Shape(e: seq<RebasePattern>)
  {
    e != [] ==> e[|e| - 1].repeatCount == 1 && e[|e| - 1].contigCount >= 1 && e[|e| - 1].skipCount == 0
  }

  /** The replay cursor stands one pointer past the last location added. */
  predicate Sync(p: PointerSize, b: Builder)
  {
    Shape(b.entries) && Cursor(p, b.entries) == Wrap64(b.lastLocation + p)
  }

  /** The addition would merge into an entry whose 20-bit repeat count is already full. */
  predicate MergeFull(p: PointerSize, b: Builder, offset: uint64)
  {
    b.entries != [] && WithinSkip(p, b, offset) &&
    var e := WithSkip(b.entries, SkipField(p, Delta(b, offset)));
    Mergeable(e) && e[|e| - 2].repeatCount == MAX_REPEAT
  }

  /** What must hold before an addition for it to be recorded faithfully. */
  predicate AddSafe(p: PointerSize, b: Builder, offset: uint64)
  {
    Accepts(p, b, offset) && (b.entries != [] ==> offset != b.lastLocation) && !MergeFull(p, b, offset)
  }

  // ----- effect of each edit on the replay ------------------------------------------------

  lemma {:induction false} ReplaySnoc(p: PointerSize, e: seq<RebasePattern>, pat: RebasePattern)
    ensures Replay(p, e + [pat]) == Replay(p, e) + PatternOutput(p, pat, Cursor(p, e))
    ensures Cursor(p, e + [pat]) == PatternEnd(p, pat, Cursor(p, e))
  {
    assert (e + [pat])[..|e|] == e;
  }

  lemma OneGroup(p: PointerSize, cur: uint64, c: uint8, s: uint4)
    requires c > 0
    ensures PatternOutput(p, RebasePattern(1, c, s), cur) == Run(p, cur, c)
    ensures PatternEnd(p, RebasePattern(1, c, s), cur) == Wrap64(cur + Pointers(p, c + s))
  {
    assert Groups(p, cur, 1, c, s) == Groups(p, cur, 0, c, s) + Run(p, cur, c);
    assert GroupsEnd(p, cur, 0, c, s) == cur;
  }

  lemma {:induction false} ReplaySingleRun(p: PointerSize, e: seq<RebasePattern>, c: uint8, s: uint4)
    requires c > 0
    ensures Replay(p, e + [RebasePattern(1, c, s)]) == Replay(p, e) + Run(p, Cursor(p, e), c)
    ensures Cursor(p, e + [RebasePattern(1, c, s)]) == Wrap64(Cursor(p, e) + Pointers(p, c + s))
  {
    hide Replay, Cursor;
    ReplaySnoc(p, e, RebasePattern(1, c, s));
    OneGroup(p, Cursor(p, e), c, s);
  }

  lemma {:induction false} PushSingle(p: PointerSize, e: seq<RebasePattern>)
    ensures Replay(p, e + [SINGLE]) == Replay(p, e) + [Cursor(p, e)]
    ensures Cursor(p, e + [SINGLE]) == Wrap64(Cursor(p, e) + p)
  {
    hide Replay, Cursor;
    ReplaySingleRun(p, e, 1, 0);
    assert Run(p, Cursor(p, e), 1) == Run(p, Cursor(p, e), 0) + [Wrap64(Cursor(p, e))];
  }

  lemma {:induction false} BumpContig(p: PointerSize, front: seq<RebasePattern>, c: uint8)
    requires 0 < c < 255
    ensures Replay(p, front + [RebasePattern(1, c + 1, 0)])
         == Replay(p, front + [RebasePattern(1, c, 0)]) + [Cursor(p, front + [RebasePattern(1, c, 0)])]
    ensures Cursor(p, front + [RebasePattern(1, c + 1, 0)])
         == Wrap64(Cursor(p, front + [RebasePattern(1, c, 0)]) + p)
  {
    hide Replay, Cursor;
    ReplaySingleRun(p, front, c, 0);
    ReplaySingleRun(p, front, c + 1, 0);
    WrapAdd(Cursor(p, front) + Pointers(p, c), p);
  }

  lemma {:induction false} SetSkip(p: PointerSize, e: seq<RebasePattern>, skip: uint4)
    requires e != [] && Shape(e)
    ensures Replay(p, WithSkip(e, skip)) == Replay(p, e)
    ensures Cursor(p, WithSkip(e, skip)) == Wrap64(Cursor(p, e) + Pointers(p, skip))
  {
    hide Replay, Cursor;
    var front, c := e[..|e| - 1], e[|e| - 1].contigCount;
    assert e == front + [RebasePattern(1, c, 0)];
    ReplaySingleRun(p, front, c, 0);
    ReplaySingleRun(p, front, c, skip);
    WrapAdd(Cursor(p, front) + Pointers(p, c), Pointers(p, skip));
  }

  lemma {:induction false} GroupsLength(p: PointerSize, cur: uint64, r: nat, c: uint8, s: uint4)
    requires c > 0
    ensures |Groups(p, cur, r, c, s)| >= r
    ensures r == 0 ==> Groups(p, cur, r, c, s) == []
  {
    if r > 0 {
      GroupsLength(p, cur, r - 1, c, s);
      RunLength(p, GroupsEnd(p, cur, r - 1, c, s), c);
    }
  }

  lemma {:induction false} RunLength(p: PointerSize, cur: uint64, n: uint8)
    ensures |Run(p, cur, n)| == n
  {
    if n > 0 { RunLength(p, cur, n - 1); }
  }

  lemma OneMoreGroup(p: PointerSize, cur: uint64, r: nat, c: uint8, s: uint4)
    ensures Groups(p, cur, r + 1, c, s) == Groups(p, cur, r, c, s) + Run(p, GroupsEnd(p, cur, r, c, s), c)
    ensures GroupsEnd(p, cur, r + 1, c, s) == Wrap64(GroupsEnd(p, cur, r, c, s) + Pointers(p, c + s))
  {
  }

  /** Folding the last entry into its twin changes nothing, unless the repeat count overflows. */
  lemma {:induction false} Fold(p: PointerSize, e: seq<RebasePattern>)
    requires Mergeable(e) && e[|e| - 1].repeatCount == 1 && e[|e| - 1].contigCount > 0
    ensures e[|e| - 2].repeatCount < MAX_REPEAT ==>
              Replay(p, Merged(e)) == Replay(p, e) && Cursor(p, Merged(e)) == Cursor(p, e)
    ensures e[|e| - 2].repeatCount == MAX_REPEAT ==> |Replay(p, Merged(e))| + 0x10_0000 <= |Replay(p, e)|
  {
    hide Replay, Cursor, Groups, GroupsEnd, Run;
    var front, prev := e[..|e| - 2], e[|e| - 2];
    var r, c, s := prev.repeatCount, prev.contigCount, prev.skipCount;
    assert e == (front + [prev]) + [RebasePattern(1, c, s)];
    ReplaySnoc(p, front, prev);
    ReplaySingleRun(p, front + [prev], c, s);
    var cur := Cursor(p, front);
    if r < MAX_REPEAT {
      ReplaySnoc(p, front, RebasePattern(r + 1, c, s));
      OneMoreGroup(p, cur, r, c, s);
    } else {
      ReplaySnoc(p, front, RebasePattern(0, c, s));
      GroupsLength(p, cur, 0, c, s);
      GroupsLength(p, cur, r, c, s);
      RunLength(p, GroupsEnd(p, cur, r, c, s), c);
    }
  }

  lemma {:induction false} NearLeapsAdvance(p: PointerSize, e: seq<RebasePattern>, advance: nat)
    requires advance <= MAX_LEAP
    ensures Replay(p, e + NearLeaps(advance)) == Replay(p, e)
    ensures Cursor(p, e + NearLeaps(advance)) == Wrap64(Cursor(p, e) + advance)
    decreases advance
  {
    hide Replay, Cursor;
    if advance > MAX_REPEAT {
      var first, rest := RebasePattern(advance / 15, 0, 15), advance - advance / 15 * 15;
      ReplaySnoc(p, e, first);
      NearLeapsAdvance(p, e + [first], rest);
      assert e + NearLeaps(advance) == (e + [first]) + NearLeaps(rest);
      WrapAdd(Cursor(p, e) + advance / 15 * 15, rest);
    } else if advance != 0 {
      ReplaySnoc(p, e, RebasePattern(advance, 0, 1));
    } else {
      assert e + [] == e;
    }
  }

  lemma {:induction false} LeapsAdvance(p: PointerSize, e: seq<RebasePattern>, advance: uint64)
    ensures Replay(p, e + Leaps(advance)) == Replay(p, e)
    ensures Cursor(p, e + Leaps(advance)) == Wrap64(Cursor(p, e) + advance)
    decreases advance
  {
    hide Replay, Cursor;
    if advance > MAX_LEAP {
      var first := RebasePattern(MAX_REPEAT, 0, MAX_SKIP);
      ReplaySnoc(p, e, first);
      LeapsAdvance(p, e + [first], advance - MAX_LEAP);
      assert e + Leaps(advance) == (e + [first]) + Leaps(advance - MAX_LEAP);
      WrapAdd(Cursor(p, e) + MAX_LEAP, advance - MAX_LEAP);
    } else {
      NearLeapsAdvance(p, e, advance);
    }
  }

  // ----- effect of one addition -----------------------------------------------------------

  lemma {:induction false} LeapOutcome(p: PointerSize, b: Builder, offset: uint64)
    ensures Replay(p, AfterLeap(p, b, offset)) == Replay(p, b.entries)
    ensures Cursor(p, b.entries) == Wrap64(b.lastLocation + p) ==> Cursor(p, AfterLeap(p, b, offset)) == offset
  {
    hide Replay, Cursor;
    if Backward(p, b, offset) {
      ReplaySnoc(p, b.entries, RESET);
      LeapsAdvance(p, b.entries + [RESET], offset);
    } else {
      LeapsAdvance(p, b.entries, Wrap64(Delta(b, offset) - p));
    }
  }

  lemma SkipFieldOf(p: PointerSize, delta: uint64)
    requires Aligned(p, delta) && delta != p && delta <= Pointers(p, 15)
    ensures if delta == 0 then SkipField(p, delta) == 15 else Pointers(p, SkipField(p, delta)) == delta - p
  {
    if delta == 0 {
      assert Wrap64(delta - p) == TWO_64 - p;
    } else {
      var k := InPointers(p, delta);
      assert delta == Pointers(p, k) && 2 <= k <= 15;
    }
  }

  lemma SkipFieldValue(p: PointerSize, b: Builder, offset: uint64)
    requires WithinSkip(p, b, offset)
    ensures Wrap64(Wrap64(b.lastLocation + p) + Pointers(p, SkipField(p, Delta(b, offset)))) == offset
       <==> offset != b.lastLocation
  {
    hide SkipField, Aligned;
    SkipFieldOf(p, Delta(b, offset));
  }

  lemma {:induction false} SkipOutcome(p: PointerSize, b: Builder, offset: uint64)
    requires b.entries != [] && Shape(b.entries) && WithinSkip(p, b, offset)
    ensures !MergeFull(p, b, offset) ==> Replay(p, AfterSkip(p, b, offset)) == Replay(p, b.entries)
    ensures !MergeFull(p, b, offset) && Cursor(p, b.entries) == Wrap64(b.lastLocation + p) ==>
              (Cursor(p, AfterSkip(p, b, offset)) == offset <==> offset != b.lastLocation)
    ensures MergeFull(p, b, offset) ==> |Replay(p, AfterSkip(p, b, offset))| + 0x10_0000 <= |Replay(p, b.entries)|
  {
    hide Replay, Cursor, SkipField;
    var skip := SkipField(p, Delta(b, offset));
    SetSkip(p, b.entries, skip);
    SkipFieldValue(p, b, offset);
    if Mergeable(WithSkip(b.entries, skip)) {
      Fold(p, WithSkip(b.entries, skip));
    }
  }

  /** An addition appends exactly one location, or overflows a repeat count and loses 2^20 of them. */
  lemma {:induction false} AddOutcome(p: PointerSize, b: Builder, offset: uint64) returns (x: uint64)
    requires Shape(b.entries) && Accepts(p, b, offset)
    ensures Shape(Added(p, b, offset).entries)
    ensures Cursor(p, Added(p, b, offset).entries) == Wrap64(x + p)
    ensures !MergeFull(p, b, offset) ==> Replay(p, Added(p, b, offset).entries) == Replay(p, b.entries) + [x]
    ensures MergeFull(p, b, offset) ==> |Replay(p, Added(p, b, offset).entries)| < |Replay(p, b.entries)|
    ensures Sync(p, b) && !MergeFull(p, b, offset) ==> (x == offset <==> AddSafe(p, b, offset))
  {
    hide Replay, Cursor, AfterSkip, AfterLeap, SkipField;
    var e := b.entries;
    if Delta(b, offset) == p {
      x := Cursor(p, e);
      if e[|e| - 1].contigCount < 255 {
        assert e == e[..|e| - 1] + [RebasePattern(1, e[|e| - 1].contigCount, 0)];
        BumpContig(p, e[..|e| - 1], e[|e| - 1].contigCount);
      } else {
        PushSingle(p, e);
      }
    } else if WithinSkip(p, b, offset) {
      SkipOutcome(p, b, offset);
      x := Cursor(p, AfterSkip(p, b, offset));
      PushSingle(p, AfterSkip(p, b, offset));
    } else {
      LeapOutcome(p, b, offset);
      x := Cursor(p, AfterLeap(p, b, offset));
      PushSingle(p, AfterLeap(p, b, offset));
    }
  }

  /** One addition is recorded faithfully exactly when it is safe; safe additions keep the builder in step. */
  lemma {:induction false} AddStep(p: PointerSize, b: Builder, offset: uint64)
    requires Sync(p, b) && Accepts(p, b, offset)
    ensures Replay(p, Added(p, b, offset).entries) == Replay(p, b.entries) + [offset] <==> AddSafe(p, b, offset)
    ensures AddSafe(p, b, offset) ==> Sync(p, Added(p, b, offset))
  {
    hide Replay, Cursor;
    var x := AddOutcome(p, b, offset);
    var before := Replay(p, b.entries);
    assert (before + [x])[|before|] == x && (before + [offset])[|before|] == offset;
  }

  // ----- reset entries --------------------------------------------------------------------

  function Resets(e: seq<RebasePattern>): nat
  {
    if e == [] then 0 else Resets(e[..|e| - 1]) + if e[|e| - 1] == RESET then 1 else 0
  }

  lemma {:induction false} ResetsConcat(e: seq<RebasePattern>, f: seq<RebasePattern>)
    ensures Resets(e + f) == Resets(e) + Resets(f)
  {
    if f == [] {
      assert e + f == e;
    } else {
      ResetsConcat(e, f[..|f| - 1]);
      assert (e + f)[..|e + f| - 1] == e + f[..|f| - 1];
    }
  }

  lemma {:induction false} LeapsHaveNoReset(advance: uint64)
    ensures Resets(Leaps(advance)) == 0
    decreases advance
  {
    if advance > MAX_LEAP {
      LeapsHaveNoReset(advance - MAX_LEAP);
      ResetsConcat([RebasePattern(MAX_REPEAT, 0, MAX_SKIP)], Leaps(advance - MAX_LEAP));
    } else if advance > MAX_REPEAT {
      LeapsHaveNoReset(advance - advance / 15 * 15);
      ResetsConcat([RebasePattern(advance / 15, 0, 15)], NearLeaps(advance - advance / 15 * 15));
    }
  }

  lemma ResetsAfterSkip(e: seq<RebasePattern>, skip: uint4)
    requires e != [] && Shape(e)
    ensures var f := WithSkip(e, skip); Resets(if Mergeable(f) then Merged(f) else f) == Resets(e)
  {
    var f := WithSkip(e, skip);
    assert f[..|f| - 1] == e[..|e| - 1];
    if Mergeable(f) {
      assert Merged(f)[..|f| - 2] == f[..|f| - 2] == f[..|f| - 1][..|f| - 2];
    }
  }

  lemma ResetsAfterLeap(p: PointerSize, b: Builder, offset: uint64)
    ensures Resets(AfterLeap(p, b, offset)) == Resets(b.entries) + if Backward(p, b, offset) then 1 else 0
  {
    hide Leaps;
    if Backward(p, b, offset) {
      LeapsHaveNoReset(offset);
      ResetsConcat(b.entries, [RESET]);
      ResetsConcat(b.entries + [RESET], Leaps(offset));
    } else {
      LeapsHaveNoReset(Wrap64(Delta(b, offset) - p));
      ResetsConcat(b.entries, Leaps(Wrap64(Delta(b, offset) - p)));
    }
  }

  /** A reset entry appears only where a location lies before the previous one: never by accident. */
  lemma ResetOnlyBackward(p: PointerSize, b: Builder, offset: uint64)
    requires Shape(b.entries) && Accepts(p, b, offset)
    ensures Resets(Added(p, b, offset).entries) == Resets(b.entries)
              + if Backward(p, b, offset) && Delta(b, offset) != p && !WithinSkip(p, b, offset) then 1 else 0
  {
    hide SkipField, AfterLeap;
    var e := b.entries;
    if Delta(b, offset) == p {
      ResetsConcat(e, [SINGLE]);
    } else if WithinSkip(p, b, offset) {
      ResetsAfterSkip(e, SkipField(p, Delta(b, offset)));
      ResetsConcat(AfterSkip(p, b, offset), [SINGLE]);
    } else {
      ResetsAfterLeap(p, b, offset);
      ResetsConcat(AfterLeap(p, b, offset), [SINGLE]);
    }
  }

  // ----- whole runs -----------------------------------------------------------------------

  /** The builder after adding all offsets in order; None when an addition hits the empty-array assertion. */
  function Build(p: PointerSize, offsets: seq<uint64>): Option<Builder>
  {
    if offsets == [] then Some(Fresh(p)) else
    match Build(p, offsets[..|offsets| - 1])
    case None => None
    case Some(b) =>
      if Accepts(p, b, offsets[|offsets| - 1]) then Some(Added(p, b, offsets[|offsets| - 1])) else None
  }

  predicate RunSafe(p: PointerSize, offsets: seq<uint64>)
  {
    offsets == [] ||
    (RunSafe(p, offsets[..|offsets| - 1])
     && match Build(p, offsets[..|offsets| - 1])
        case None => false
        case Some(b) => AddSafe(p, b, offsets[|offsets| - 1]))
  }

  predicate RoundTrips(p: PointerSize, offsets: seq<uint64>)
  {
    Build(p, offsets).Some? && Replay(p, Build(p, offsets).value.entries) == offsets
  }

  lemma {:induction false} BuiltShape(p: PointerSize, offsets: seq<uint64>)
    requires Build(p, offsets).Some?
    ensures var e := Build(p, offsets).value.entries; Shape(e) && |Replay(p, e)| <= |offsets|
    ensures offsets != [] ==> Build(p, offsets).value.entries != []
    ensures Build(p, offsets).value.lastLocation
         == if offsets == [] then TWO_64 - p else offsets[|offsets| - 1]
  {
    if offsets != [] {
      hide Replay, Cursor, MergeFull;
      var front := offsets[..|offsets| - 1];
      BuiltShape(p, front);
      var x := AddOutcome(p, Build(p, front).value, offsets[|offsets| - 1]);
    }
  }

  /** A faithful recording had faithful prefixes: nothing lost is ever recovered. */
  lemma {:induction false} PrefixRoundTrips(p: PointerSize, offsets: seq<uint64>)
    requires offsets != [] && RoundTrips(p, offsets)
    ensures RoundTrips(p, offsets[..|offsets| - 1])
  {
    hide Replay, Cursor, Added, MergeFull;
    var front := offsets[..|offsets| - 1];
    BuiltShape(p, front);
    var x := AddOutcome(p, Build(p, front).value, offsets[|offsets| - 1]);
  }

  lemma FreshInStep(p: PointerSize)
    ensures RoundTrips(p, []) && Sync(p, Fresh(p))
  {
  }

  lemma {:induction false} SafeRun(p: PointerSize, offsets: seq<uint64>)
    requires RunSafe(p, offsets)
    ensures RoundTrips(p, offsets) && Sync(p, Build(p, offsets).value)
  {
    hide Replay, Cursor, Added, Sync;
    if offsets == [] {
      FreshInStep(p);
    } else {
      var front := offsets[..|offsets| - 1];
      SafeRun(p, front);
      AddStep(p, Build(p, front).value, offsets[|offsets| - 1]);
      assert offsets == front + [offsets[|offsets| - 1]];
    }
  }

  lemma {:induction false} FaithfulRun(p: PointerSize, offsets: seq<uint64>)
    requires RoundTrips(p, offsets)
    ensures RunSafe(p, offsets)
  {
    hide Replay, Cursor, Added, Accepts, Sync;
    if offsets != [] {
      var front := offsets[..|offsets| - 1];
      PrefixRoundTrips(p, offsets);
      FaithfulRun(p, front);
      SafeRun(p, front);
      AddStep(p, Build(p, front).value, offsets[|offsets| - 1]);
      assert offsets == front + [offsets[|offsets| - 1]];
    }
  }

  /** Every offset sequence, with backward jumps and misaligned gaps: replay undoes recording
      exactly when each addition was safe at the time it was made. */
  lemma {:induction false} RebaseRoundTripExactly(p: PointerSize, offsets: seq<uint64>)
    ensures RoundTrips(p, offsets) <==> RunSafe(p, offsets)
  {
    if RunSafe(p, offsets) { SafeRun(p, offsets); }
    if RoundTrips(p, offsets) { FaithfulRun(p, offsets); }
  }

  // ----- the condition on the offsets alone ------------------------------------------------

  /** The first location is misaligned or beyond 14 pointers, and no location directly repeats. */
  predicate Recordable(p: PointerSize, offsets: seq<uint64>)
  {
    && (offsets != [] ==> !Aligned(p, offsets[0]) || Pointers(p, 14) < offsets[0] < TWO_64 - p)
    && forall i :: 0 < i < |offsets| ==> offsets[i] != offsets[i - 1]
  }

  /** A full repeat count means at least 2^20 locations are already recorded. */
  lemma {:induction false} FullMeansMany(p: PointerSize, b: Builder, offset: uint64)
    requires Shape(b.entries) && Accepts(p, b, offset) && MergeFull(p, b, offset)
    ensures |Replay(p, b.entries)| >= 0x10_0000
  {
    SkipOutcome(p, b, offset);
  }

  lemma {:induction false} FirstAccepted(p: PointerSize, offset: uint64)
    ensures Accepts(p, Fresh(p), offset) <==> !Aligned(p, offset) || Pointers(p, 14) < offset < TWO_64 - p
  {
  }

  /** Below 2^20 recorded locations, safety of one more is a matter of the offsets alone. */
  lemma SafeByOffsets(p: PointerSize, front: seq<uint64>, last: uint64)
    requires |front| < 0x10_0000 && Build(p, front).Some?
    ensures AddSafe(p, Build(p, front).value, last) <==>
              if front == [] then !Aligned(p, last) || Pointers(p, 14) < last < TWO_64 - p
              else last != front[|front| - 1]
  {
    hide Replay, Cursor, WithinSkip;
    BuiltShape(p, front);
    var b := Build(p, front).value;
    if front == [] {
      FirstAccepted(p, last);
      assert !MergeFull(p, b, last);
    } else if MergeFull(p, b, last) {
      FullMeansMany(p, b, last);
      assert false;
    }
  }

  /** Up to 2^20 locations: the round trip holds exactly for the recordable sequences. */
  lemma {:induction false} RebaseRoundTrip(p: PointerSize, offsets: seq<uint64>)
    requires |offsets| <= 0x10_0000
    ensures RoundTrips(p, offsets) <==> Recordable(p, offsets)
  {
    hide Replay, Added, AddSafe, Accepts;
    RebaseRoundTripExactly(p, offsets);
    if offsets == [] {
      FreshInStep(p);
    } else {
      var front, last := offsets[..|offsets| - 1], offsets[|offsets| - 1];
      RebaseRoundTrip(p, front);
      RebaseRoundTripExactly(p, front);
      if Build(p, front).Some? { SafeByOffsets(p, front, last); }
      assert forall i :: 0 <= i < |front| ==> offsets[i] == front[i];
    }
  }
}
