/** What runs over the immutable-range table amount to, in terms of the appends and reads they were made of. */
module RangeHistory {
  import opened MachineWords
  import opened ImmutableRanges

  // ----- appends ---------------------------------------------------------------------------------

  /** The range is in some slot of the table. */
  predicate Stored(t: Table, r: Range)
  {
    exists b, i :: 0 <= b < |t.buckets| && 0 <= i < |t.buckets[b]| && t.buckets[b][i] == r
  }

  /** The ranges begun are the finished ones and the one the writer is at. */
  predicate BegunAccounted(t: Table)
  {
    t.begun == t.finished + if t.writer.Idle? then {} else {t.writer.r}
  }

  lemma BegunStep(t: Table, a: Action)
    requires Enabled(t, a) && t.buckets != [] && BegunAccounted(t)
    ensures Step(t, a).begun == t.begun + if a.BeginAppend? then {a.r} else {}
    ensures BegunAccounted(Step(t, a))
  {
    hide SetSlot, Blank, NextPlace, OutsideBounds;
  }

  lemma {:induction false} BegunExact(actions: seq<Action>, r: Range)
    requires CanRun(actions)
    ensures r in Run(actions).begun <==> exists j :: 0 <= j < |actions| && actions[j] == BeginAppend(r)
    ensures BegunAccounted(Run(actions))
  {
    if actions != [] {
      var n := |actions| - 1;
      var front := actions[..n];
      hide Step, Enabled, BegunAccounted;
      BegunExact(front, r);
      BegunStep(Run(front), actions[n]);
      assert forall j :: 0 <= j < n ==> front[j] == actions[j];
      if actions[n] == BeginAppend(r) { assert 0 <= n < |actions| && actions[n] == BeginAppend(r); }
    }
  }

  lemma {:induction false} FinishedKept(actions: seq<Action>, m: nat, r: Range)
    requires CanRun(actions) && m <= |actions| && CanRun(actions[..m]) && r in Run(actions[..m]).finished
    ensures r in Run(actions).finished
    decreases |actions|
  {
    if m == |actions| {
      assert actions[..m] == actions;
    } else {
      var front := actions[..|actions| - 1];
      assert front[..m] == actions[..m];
      FinishedKept(front, m, r);
    }
  }

  lemma {:induction false} PrefixRuns(actions: seq<Action>, m: nat)
    requires CanRun(actions) && m <= |actions|
    ensures CanRun(actions[..m])
    decreases |actions|
  {
    if m == |actions| {
      assert actions[..m] == actions;
    } else {
      PrefixRuns(actions[..|actions| - 1], m);
      assert actions[..|actions| - 1][..m] == actions[..m];
    }
  }

  /** An append that the writer has come back from is finished. */
  lemma ReturnedIsFinished(actions: seq<Action>, j: nat, m: nat, r: Range)
    requires CanRun(actions) && j < m <= |actions| && actions[j] == BeginAppend(r)
    requires CanRun(actions[..m]) && Run(actions[..m]).writer.Idle?
    ensures r in Run(actions).finished
  {
    BegunExact(actions[..m], r);
    assert actions[..m][j] == BeginAppend(r);
    FinishedKept(actions, m, r);
  }

  /** A bucket never changes its size: the first holds two ranges, and every later one fifteen. */
  lemma {:induction false} BucketSizes(actions: seq<Action>, b: nat)
    requires CanRun(actions) && b < |Run(actions).buckets|
    ensures |Run(actions).buckets[b]| == if b == 0 then 2 else 15
  {
    if actions != [] {
      var n := |actions| - 1;
      hide Step, Enabled;
      RunInv(actions[..n]);
      StepSizes(Run(actions[..n]), actions[n], b);
      if b < |Run(actions[..n]).buckets| { BucketSizes(actions[..n], b); }
    }
  }

  lemma StepSizes(t: Table, a: Action, b: nat)
    requires Enabled(t, a) && t.buckets != [] && b < |Step(t, a).buckets|
    ensures |Step(t, a).buckets[b]| == if b < |t.buckets| then |t.buckets[b]| else 15
  {
  }

  /** Once the writer has come back from an append, its range is in the table, and stays there. */
  lemma AppendStored(actions: seq<Action>, j: nat, m: nat, r: Range)
    requires CanRun(actions) && j < m <= |actions| && actions[j] == BeginAppend(r)
    requires CanRun(actions[..m]) && Run(actions[..m]).writer.Idle?
    ensures exists b, i :: 0 <= b < |Run(actions).buckets| && 0 <= i < |Run(actions).buckets[b]|
                           && Run(actions).buckets[b][i] == r
  {
    ReturnedIsFinished(actions, j, m, r);
    RunInv(actions);
    assert Ahead(Run(actions), 0, 0, r);
  }

  /** Nothing else ever gets into the table: a slot in use holds an appended range. */
  lemma StoredWasAppended(actions: seq<Action>, b: nat, i: nat)
    requires CanRun(actions)
    requires b < |Run(actions).buckets| && i < |Run(actions).buckets[b]| && Run(actions).buckets[b][i].start != 0
    ensures exists j :: 0 <= j < |actions| && actions[j] == BeginAppend(Run(actions).buckets[b][i])
  {
    RunInv(actions);
    assert Used(Run(actions), b, i);
    BegunExact(actions, Run(actions).buckets[b][i]);
  }

  // ----- reads -----------------------------------------------------------------------------------

  function Reads(actions: seq<Action>): nat
  {
    if actions == [] then 0 else
    Reads(actions[..|actions| - 1]) + if actions[|actions| - 1].BeginRead? then 1 else 0
  }

  lemma {:induction false} ReadersCounted(actions: seq<Action>)
    requires CanRun(actions)
    ensures |Run(actions).readers| == Reads(actions)
  {
    if actions != [] { ReadersCounted(actions[..|actions| - 1]); }
  }

  /** The reader that the i-th action started: it asks for what that action says; out of bounds it has its
      answer at once, otherwise every append finished by then is due to it. */
  ghost predicate StartedBy(actions: seq<Action>, i: nat, rd: Reader)
    requires CanRun(actions) && i < |actions| && actions[i].BeginRead? && CanRun(actions[..i])
  {
    var a := actions[i];
    && rd.addr == a.addr && rd.length == a.length
    && if a.addr < a.lowest || (a.addr + a.length) % TWO_64 > a.highest then rd.place == Answered(false)
       else rd.due == Run(actions[..i]).finished
  }

  lemma WrapIsRemainder(x: int)
    requires 0 <= x < 2 * TWO_64
    ensures Wrap64(x) == x % TWO_64
  {
  }

  lemma {:induction false} ReaderOf(actions: seq<Action>, i: nat)
    requires CanRun(actions) && i < |actions| && actions[i].BeginRead?
    ensures CanRun(actions[..i]) && Reads(actions[..i]) < |Run(actions).readers|
    ensures StartedBy(actions, i, Run(actions).readers[Reads(actions[..i])])
    decreases |actions|
  {
    hide Wrap64, TestFrom, WriterStep;
    var n := |actions| - 1;
    var front := actions[..n];
    PrefixRuns(actions, i);
    ReadersCounted(front);
    if i == n {
      WrapIsRemainder(actions[i].addr + actions[i].length);
    } else {
      assert front[..i] == actions[..i] && front[i] == actions[i];
      ReaderOf(front, i);
      WriterKeepsReaders(Run(front), actions[n]);
    }
  }

  /** A step leaves every reader's query and dues alone, and an answer stands. */
  lemma WriterKeepsReaders(t: Table, a: Action)
    requires Enabled(t, a) && t.buckets != []
    ensures |t.readers| <= |Step(t, a).readers|
    ensures forall k :: 0 <= k < |t.readers| ==>
              var now := Step(t, a).readers[k];
              && now.addr == t.readers[k].addr && now.length == t.readers[k].length && now.due == t.readers[k].due
              && (t.readers[k].place.Answered? ==> now.place == t.readers[k].place)
  {
  }

  /** A true answer is given only within the bounds, and comes from an appended range that starts at or
      before the address; the queried bytes end inside that range exactly when they do not run past the end
      of the address space. */
  lemma TrueMeansInside(actions: seq<Action>, i: nat)
    requires CanRun(actions) && i < |actions| && actions[i].BeginRead?
    requires CanRun(actions[..i]) && Reads(actions[..i]) < |Run(actions).readers|
    requires Run(actions).readers[Reads(actions[..i])].place == Answered(true)
    ensures var a := actions[i];
            && a.lowest <= a.addr && (a.addr + a.length) % TWO_64 <= a.highest
            && exists j :: 0 <= j < |actions| && actions[j].BeginAppend? && actions[j].r.start <= a.addr
                           && (a.addr + a.length < actions[j].r.end <==> a.addr + a.length < TWO_64)
  {
    ReaderOf(actions, i);
    RunInv(actions);
    var rd := Run(actions).readers[Reads(actions[..i])];
    assert ReaderOk(Run(actions), rd);
    var r :| r in Run(actions).begun && Matches(rd, r);
    BegunExact(actions, r);
    var j :| 0 <= j < |actions| && actions[j] == BeginAppend(r);
    WrapIsRemainder(rd.addr + rd.length);
  }

  /** A range is never missed by a read that starts after the writer has come back from its append: a false
      answer within the bounds means that it does not hold the query strictly inside. */
  lemma FalseMeansNone(actions: seq<Action>, i: nat, j: nat, m: nat, r: Range)
    requires CanRun(actions) && j < m <= i < |actions| && actions[j] == BeginAppend(r)
    requires CanRun(actions[..m]) && Run(actions[..m]).writer.Idle?
    requires actions[i].BeginRead? && CanRun(actions[..i]) && Reads(actions[..i]) < |Run(actions).readers|
    requires actions[i].lowest <= actions[i].addr && (actions[i].addr + actions[i].length) % TWO_64 <= actions[i].highest
    requires Run(actions).readers[Reads(actions[..i])].place == Answered(false)
    ensures !(r.start <= actions[i].addr && (actions[i].addr + actions[i].length) % TWO_64 < r.end)
  {
    hide Step, Enabled, Shape, WriterOk, ContentsOk, FinishedOk, Run;
    ReaderOf(actions, i);
    assert actions[..i][..m] == actions[..m];
    ReturnedIsFinished(actions[..i], j, m, r);
    RunInv(actions);
    var rd := Run(actions).readers[Reads(actions[..i])];
    assert ReaderOk(Run(actions), rd);
    WrapIsRemainder(rd.addr + rd.length);
  }

  // ----- progress --------------------------------------------------------------------------------

  /** After every run: the writer can go on, or start an append; a read can start; a reader without an answer
      can go on. */
  lemma NeverStuck(actions: seq<Action>)
    requires CanRun(actions)
    ensures var t := Run(actions);
            && (!t.writer.Idle? ==> CanRun(actions + [Write]))
            && (t.writer.Idle? ==> forall r: Range :: r.start != 0 ==> CanRun(actions + [BeginAppend(r)]))
            && (forall addr, length, lowest, highest :: CanRun(actions + [BeginRead(addr, length, lowest, highest)]))
            && (forall k :: 0 <= k < |t.readers| && !t.readers[k].place.Answered? ==> CanRun(actions + [Read(k)]))
  {
    hide Step;
    RunInv(actions);
    var t := Run(actions);
    forall a | Sensible(a) && Enabled(t, a) ensures CanRun(actions + [a]) {
      assert (actions + [a])[..|actions + [a]| - 1] == actions;
    }
    forall k | 0 <= k < |t.readers| && !t.readers[k].place.Answered? ensures ReaderEnabled(t, k) {
      assert ReaderOk(t, t.readers[k]);
    }
  }

  /** Lexicographic order of three counts. */
  predicate Less(a: (nat, nat, nat), b: (nat, nat, nat))
  {
    a.0 < b.0 || (a.0 == b.0 && (a.1 < b.1 || (a.1 == b.1 && a.2 < b.2)))
  }

  /** Buckets to go, what is left to do there, slots to go. */
  function WriterLeft(t: Table): (nat, nat, nat)
    requires WriterOk(t)
  {
    match t.writer
    case Idle => (0, 0, 0)
    case Scanning(b, i, _) => (|t.buckets| - b, 2, |t.buckets[b]| - i)
    case Following(b, _) => (|t.buckets| - b, 1, 0)
    case Linking(b, _) => (0, 2, 0)
    case StoringEnd(b, i, _) => (0, 1, 1)
    case StoringStart(b, i, _) => (0, 1, 0)
  }

  /** An append comes to its end: each of its steps brings it nearer, and no step of a reader matters. */
  lemma AppendEnds(actions: seq<Action>, a: Action)
    requires CanRun(actions) && CanRun(actions + [a])
    ensures WriterOk(Run(actions)) && WriterOk(Run(actions + [a]))
    ensures a == Write ==> Less(WriterLeft(Run(actions + [a])), WriterLeft(Run(actions)))
    ensures a.BeginRead? || a.Read? ==> WriterLeft(Run(actions + [a])) == WriterLeft(Run(actions))
  {
    var all := actions + [a];
    assert all[..|all| - 1] == actions;
    RunInv(actions);
    RunInv(all);
    hide Shape, ContentsOk, FinishedOk, ReaderOk, Run, CanRun, FullBefore, Used;
    WriterNearer(Run(actions), a);
  }

  lemma WriterNearer(t: Table, a: Action)
    requires Enabled(t, a) && t.buckets != [] && WriterOk(t) && WriterOk(Step(t, a))
    ensures a == Write ==> Less(WriterLeft(Step(t, a)), WriterLeft(t))
    ensures a.BeginRead? || a.Read? ==> WriterLeft(Step(t, a)) == WriterLeft(t)
  {
    hide FullBefore, Used, Blank;
  }

  function ReaderLeft(t: Table, rd: Reader): (nat, nat, nat)
    requires ReaderOk(t, rd)
  {
    match rd.place
    case Testing(b, i) => (|t.buckets| - b, |t.buckets[b]| - i, 3)
    case ComparingStart(b, i) => (|t.buckets| - b, |t.buckets[b]| - i, 2)
    case ComparingEnd(b, i) => (|t.buckets| - b, |t.buckets[b]| - i, 1)
    case FollowingNext(b) => (|t.buckets| - b, 0, 0)
    case Answered(_) => (0, 0, 0)
  }

  /** So does a read, as long as no bucket is added. */
  lemma ReadEnds(actions: seq<Action>, k: nat)
    requires CanRun(actions) && CanRun(actions + [Read(k)])
    ensures k < |Run(actions).readers| == |Run(actions + [Read(k)]).readers|
    ensures var t, u := Run(actions), Run(actions + [Read(k)]);
            && ReaderOk(t, t.readers[k]) && ReaderOk(u, u.readers[k])
            && Less(ReaderLeft(u, u.readers[k]), ReaderLeft(t, t.readers[k]))
  {
    hide DueAhead, Ahead, Shape, WriterOk, ContentsOk, FinishedOk;
    var all := actions + [Read(k)];
    assert all[..|all| - 1] == actions;
    RunInv(actions);
    RunInv(all);
    assert ReaderOk(Run(actions), Run(actions).readers[k]) && ReaderOk(Run(all), Run(all).readers[k]);
    hide ReaderOk;
    ReaderNearer(Run(actions), k);
  }

  lemma ReaderNearer(t: Table, k: nat)
    requires Enabled(t, Read(k)) && t.buckets != [] && k < |t.readers|
    requires ReaderOk(t, t.readers[k]) && ReaderOk(Step(t, Read(k)), Step(t, Read(k)).readers[k])
    ensures Less(ReaderLeft(Step(t, Read(k)), Step(t, Read(k)).readers[k]), ReaderLeft(t, t.readers[k]))
  {
    hide DueAhead, Ahead;
  }
}
