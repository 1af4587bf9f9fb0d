/**
 The lock-free table of immutable ranges: one writer appending, any number of readers, interleaved at
 each atomic load and store.
 */
module ImmutableRanges {
  import opened MachineWords

  const FIRST_SIZE: nat := 2
  const NEXT_SIZE: nat := 15

  datatype Range = Range(start: uint64, end: uint64)

  /** A slot is in use when its start is non-zero. */
  type Slot = Range
  const EMPTY: Slot := Range(0, 0)

  /** The writer: between appends; about to load a slot's start; about to store the end, then the start;
      about to follow the next pointer; about to link a bucket prepared with the range. */
  datatype Writer =
    | Idle
    | Scanning(b: nat, i: nat, r: Range)
    | StoringEnd(b: nat, i: nat, r: Range)
    | StoringStart(b: nat, i: nat, r: Range)
    | Following(b: nat, r: Range)
    | Linking(b: nat, r: Range)

  /** A reader: about to test a slot for use, to compare its start, to compare its end, to follow the
      next pointer; or finished. */
  datatype Place =
    | Testing(b: nat, i: nat)
    | ComparingStart(b: nat, i: nat)
    | ComparingEnd(b: nat, i: nat)
    | FollowingNext(b: nat)
    | Answered(found: bool)

  /** `due` is history: the ranges whose append had finished when the read of the table began. */
  datatype Reader = Reader(addr: uint64, length: uint64, place: Place, due: set<Range>)

  /** The chain of published buckets. `begun` and `finished` are the appends so far. */
  datatype Table = Table(
    buckets: seq<seq<Slot>>, writer: Writer, readers: seq<Reader>, begun: set<Range>, finished: set<Range>)

  datatype Action =
    | BeginAppend(r: Range)
    | Write
    | BeginRead(addr: uint64, length: uint64, lowest: uint64, highest: uint64)
    | Read(k: nat)

  function Blank(n: nat): (s: seq<Slot>)
    ensures |s| == n && forall i :: 0 <= i < n ==> s[i] == EMPTY
  {
    seq(n, _ => EMPTY)
  }

  predicate InTable(t: Table, b: nat, i: nat) { b < |t.buckets| && i < |t.buckets[b]| }

  /** The scan goes on at the next slot, or at the next pointer when the bucket is done. */
  function ScanFrom(t: Table, b: nat, i: nat, r: Range): Writer
    requires b < |t.buckets|
  {
    if i < |t.buckets[b]| then Scanning(b, i, r) else Following(b, r)
  }

  function TestFrom(t: Table, b: nat, i: nat): Place
    requires b < |t.buckets|
  {
    if i < |t.buckets[b]| then Testing(b, i) else FollowingNext(b)
  }

  function SetSlot(t: Table, b: nat, i: nat, s: Slot): seq<seq<Slot>>
    requires InTable(t, b, i)
  {
    t.buckets[b := t.buckets[b][i := s]]
  }

  predicate WriterEnabled(t: Table)
  {
    match t.writer
    case Idle => false
    case Scanning(b, i, _) => InTable(t, b, i)
    case StoringEnd(b, i, _) => InTable(t, b, i)
    case StoringStart(b, i, _) => InTable(t, b, i)
    case Following(b, _) => b < |t.buckets|
    case Linking(b, _) => b < |t.buckets|
  }

  function WriterStep(t: Table): Table
    requires WriterEnabled(t)
  {
    match t.writer
    case Scanning(b, i, r) =>
      t.(writer := if t.buckets[b][i].start == 0 then StoringEnd(b, i, r) else ScanFrom(t, b, i + 1, r))
    case StoringEnd(b, i, r) =>
      t.(buckets := SetSlot(t, b, i, t.buckets[b][i].(end := r.end)), writer := StoringStart(b, i, r))
    case StoringStart(b, i, r) =>
      t.(buckets := SetSlot(t, b, i, t.buckets[b][i].(start := r.start)), writer := Idle, finished := t.finished + {r})
    case Following(b, r) =>
      t.(writer := if b + 1 < |t.buckets| then ScanFrom(t, b + 1, 0, r) else Linking(b, r))
    case Linking(b, r) =>
      t.(buckets := t.buckets + [Blank(NEXT_SIZE)[0 := r]], writer := Idle, finished := t.finished + {r})
  }

  predicate ReaderEnabled(t: Table, k: nat)
  {
    k < |t.readers| &&
    match t.readers[k].place
    case Testing(b, i) => InTable(t, b, i)
    case ComparingStart(b, i) => InTable(t, b, i)
    case ComparingEnd(b, i) => InTable(t, b, i)
    case FollowingNext(b) => b < |t.buckets|
    case Answered(_) => false
  }

  /** The comparison limit, computed in a machine word. */
  function Limit(addr: uint64, length: uint64): uint64 { Wrap64(addr + length) }

  function NextPlace(t: Table, k: nat): Place
    requires ReaderEnabled(t, k)
  {
    var rd := t.readers[k];
    match rd.place
    case Testing(b, i) => if t.buckets[b][i].start == 0 then FollowingNext(b) else ComparingStart(b, i)
    case ComparingStart(b, i) =>
      if t.buckets[b][i].start <= rd.addr then ComparingEnd(b, i) else TestFrom(t, b, i + 1)
    case ComparingEnd(b, i) =>
      if t.buckets[b][i].end > Limit(rd.addr, rd.length) then Answered(true) else TestFrom(t, b, i + 1)
    case FollowingNext(b) => if b + 1 < |t.buckets| then TestFrom(t, b + 1, 0) else Answered(false)
  }

  predicate OutsideBounds(addr: uint64, length: uint64, lowest: uint64, highest: uint64)
  {
    addr < lowest || Limit(addr, length) > highest
  }

  predicate Enabled(t: Table, a: Action)
  {
    match a
    case BeginAppend(r) => t.writer.Idle?
    case Write => WriterEnabled(t)
    case BeginRead(_, _, _, _) => t.buckets != []
    case Read(k) => ReaderEnabled(t, k)
  }

  function Step(t: Table, a: Action): Table
    requires Enabled(t, a) && t.buckets != []
  {
    match a
    case BeginAppend(r) => t.(writer := ScanFrom(t, 0, 0, r), begun := t.begun + {r})
    case Write => WriterStep(t)
    case BeginRead(addr, length, lowest, highest) =>
      var place := if OutsideBounds(addr, length, lowest, highest) then Answered(false) else TestFrom(t, 0, 0);
      var due := if OutsideBounds(addr, length, lowest, highest) then {} else t.finished;
      t.(readers := t.readers + [Reader(addr, length, place, due)])
    case Read(k) => t.(readers := t.readers[k := t.readers[k].(place := NextPlace(t, k))])
  }

  const START: Table := Table([Blank(FIRST_SIZE)], Idle, [], {}, {})

  // ----- invariants ---------------------------------------------------------------------------

  predicate Used(t: Table, b: nat, i: nat) { InTable(t, b, i) && t.buckets[b][i].start != 0 }

  predicate FullBefore(t: Table, b: nat, i: nat)
  {
    b < |t.buckets| && i <= |t.buckets[b]|
    && (forall c, j :: 0 <= c < b && 0 <= j < |t.buckets[c]| ==> Used(t, c, j))
    && forall j :: 0 <= j < i ==> Used(t, b, j)
  }

  /** Buckets are prefix-filled, and a bucket has a successor only when it is full. */
  predicate Shape(t: Table)
  {
    && t.buckets != []
    && (forall b :: 0 <= b < |t.buckets| ==> |t.buckets[b]| > 0)
    && (forall b, j, i :: 0 <= b < |t.buckets| && 0 <= j < i < |t.buckets[b]| && Used(t, b, i) ==> Used(t, b, j))
    && (forall b, i :: 0 <= b < |t.buckets| - 1 && 0 <= i < |t.buckets[b]| ==> Used(t, b, i))
  }

  /** The writer has only full slots behind it and an unused one under its pen. */
  predicate WriterOk(t: Table)
  {
    (!t.writer.Idle? ==> t.writer.r in t.begun && t.writer.r.start != 0) &&
    match t.writer
    case Idle => true
    case Scanning(b, i, r) => InTable(t, b, i) && FullBefore(t, b, i)
    case StoringEnd(b, i, r) => InTable(t, b, i) && FullBefore(t, b, i) && !Used(t, b, i)
    case StoringStart(b, i, r) => InTable(t, b, i) && FullBefore(t, b, i) && !Used(t, b, i) && t.buckets[b][i].end == r.end
    case Following(b, r) => b < |t.buckets| && FullBefore(t, b, |t.buckets[b]|)
    case Linking(b, r) => b == |t.buckets| - 1 && FullBefore(t, b, |t.buckets[b]|)
  }

  /** Slots in use hold appended ranges. */
  predicate ContentsOk(t: Table)
  {
    forall b, i :: 0 <= b < |t.buckets| && 0 <= i < |t.buckets[b]| && Used(t, b, i) ==> t.buckets[b][i] in t.begun
  }

  /** The range is in a slot at or after the given position. */
  ghost predicate Ahead(t: Table, b: nat, i: nat, r: Range)
  {
    exists c: nat, j: nat :: InTable(t, c, j) && t.buckets[c][j] == r && r.start != 0 && (b < c || (b == c && i <= j))
  }

  ghost predicate FinishedOk(t: Table)
  {
    forall r :: r in t.finished ==> Ahead(t, 0, 0, r)
  }

  /** The range answers the query as the code compares it. */
  predicate Matches(rd: Reader, r: Range)
  {
    r.start <= rd.addr && r.end > Limit(rd.addr, rd.length)
  }

  /** Every range due to this reader that answers its query still lies ahead of it. */
  ghost predicate ReaderOk(t: Table, rd: Reader)
  {
    match rd.place
    case Testing(b, i) => InTable(t, b, i) && DueAhead(t, rd, b, i)
    case ComparingStart(b, i) => Used(t, b, i) && DueAhead(t, rd, b, i)
    case ComparingEnd(b, i) => Used(t, b, i) && t.buckets[b][i].start <= rd.addr && DueAhead(t, rd, b, i)
    case FollowingNext(b) => b < |t.buckets| && DueAhead(t, rd, b + 1, 0)
    case Answered(found) =>
      if found then exists r :: r in t.begun && Matches(rd, r)
      else forall r :: r in rd.due ==> !Matches(rd, r)
  }

  ghost predicate DueAhead(t: Table, rd: Reader, b: nat, i: nat)
  {
    forall r :: r in rd.due && Matches(rd, r) ==> Ahead(t, b, i, r)
  }

  ghost predicate Inv(t: Table)
  {
    && Shape(t) && WriterOk(t) && ContentsOk(t) && FinishedOk(t)
    && forall k :: 0 <= k < |t.readers| ==> ReaderOk(t, t.readers[k])
  }

  // ----- how the table may change --------------------------------------------------------------

  /** Slots in use never change again and buckets are only added. */
  predicate Extends(t: Table, u: Table)
  {
    && |t.buckets| <= |u.buckets|
    && (forall b :: 0 <= b < |t.buckets| ==> |u.buckets[b]| == |t.buckets[b]|)
    && (forall b, i :: 0 <= b < |t.buckets| && 0 <= i < |t.buckets[b]| && Used(t, b, i) ==> u.buckets[b][i] == t.buckets[b][i])
    && t.begun <= u.begun
  }

  lemma AheadKept(t: Table, u: Table, b: nat, i: nat, r: Range)
    requires Extends(t, u) && Ahead(t, b, i, r)
    ensures Ahead(u, b, i, r)
  {
    var c: nat, j: nat :| InTable(t, c, j) && t.buckets[c][j] == r && r.start != 0 && (b < c || (b == c && i <= j));
    assert Used(t, c, j);
    assert InTable(u, c, j) && u.buckets[c][j] == r;
  }

  lemma ReaderKept(t: Table, u: Table, rd: Reader)
    requires Extends(t, u) && ReaderOk(t, rd)
    ensures ReaderOk(u, rd)
  {
    hide Ahead, Matches;
    forall b: nat, i: nat | DueAhead(t, rd, b, i) ensures DueAhead(u, rd, b, i) {
      forall r | r in rd.due && Matches(rd, r) ensures Ahead(u, b, i, r) { AheadKept(t, u, b, i, r); }
    }
    if rd.place.Answered? && rd.place.found {
      var r :| r in t.begun && Matches(rd, r);
      assert r in u.begun;
    }
  }

  /** A range at or after a position that does not hold it is after that position. */
  lemma AheadNext(t: Table, b: nat, i: nat, r: Range)
    requires Ahead(t, b, i, r) && InTable(t, b, i) && t.buckets[b][i] != r
    ensures i + 1 < |t.buckets[b]| ==> Ahead(t, b, i + 1, r)
    ensures i + 1 == |t.buckets[b]| ==> Ahead(t, b + 1, 0, r)
  {
    var c: nat, j: nat :| InTable(t, c, j) && t.buckets[c][j] == r && r.start != 0 && (b < c || (b == c && i <= j));
    assert InTable(t, c, j) && t.buckets[c][j] == r;
  }

  /** At and past an unused slot there is nothing more in the table. */
  lemma NothingAhead(t: Table, b: nat, i: nat, r: Range)
    requires Shape(t) && InTable(t, b, i) && !Used(t, b, i)
    ensures !Ahead(t, b, i, r)
  {
    forall c: nat, j: nat | InTable(t, c, j) && t.buckets[c][j] == r && r.start != 0 ensures c < b || (c == b && j < i) {
      assert Used(t, c, j);
    }
  }

  lemma ReaderStepOk(t: Table, k: nat)
    requires Inv(t) && ReaderEnabled(t, k)
    ensures ReaderOk(t, t.readers[k].(place := NextPlace(t, k)))
  {
    hide Ahead;
    var rd := t.readers[k];
    assert ReaderOk(t, rd);
    var now := rd.(place := NextPlace(t, k));
    assert forall r :: Matches(now, r) <==> Matches(rd, r);
    match rd.place {
      case Testing(b, i) =>
        if !Used(t, b, i) {
          forall r ensures !Ahead(t, b, i, r) { NothingAhead(t, b, i, r); }
        }
      case ComparingStart(b, i) =>
        if t.buckets[b][i].start > rd.addr { MoveOn(t, rd, now, b, i); }
      case ComparingEnd(b, i) =>
        if t.buckets[b][i].end > Limit(rd.addr, rd.length) {
          assert t.buckets[b][i] in t.begun;
        } else {
          MoveOn(t, rd, now, b, i);
        }
      case FollowingNext(b) =>
        if b + 1 == |t.buckets| {
          var end := b + 1;
          forall r ensures !Ahead(t, end, 0, r) { NothingBeyond(t, end, r); }
        }
    }
  }

  lemma NothingBeyond(t: Table, b: nat, r: Range)
    requires b == |t.buckets|
    ensures !Ahead(t, b, 0, r)
  {
  }

  lemma MoveOn(t: Table, rd: Reader, now: Reader, b: nat, i: nat)
    requires InTable(t, b, i) && DueAhead(t, rd, b, i) && !Matches(rd, t.buckets[b][i])
    requires now == rd.(place := TestFrom(t, b, i + 1))
    ensures ReaderOk(t, now)
  {
    hide Ahead;
    forall r | r in rd.due && Matches(rd, r)
      ensures i + 1 < |t.buckets[b]| ==> Ahead(t, b, i + 1, r)
      ensures i + 1 == |t.buckets[b]| ==> Ahead(t, b + 1, 0, r)
    {
      AheadNext(t, b, i, r);
    }
  }

  lemma WriteShape(t: Table)
    requires Inv(t) && WriterEnabled(t)
    ensures Extends(t, WriterStep(t))
    ensures Shape(WriterStep(t)) && WriterOk(WriterStep(t)) && ContentsOk(WriterStep(t))
  {
    hide ReaderOk, FinishedOk;
    var u := WriterStep(t);
    match t.writer {
      case Scanning(b, i, r) => assert forall c: nat, j: nat :: Used(u, c, j) <==> Used(t, c, j);
      case StoringEnd(b, i, r) => assert forall c: nat, j: nat :: Used(u, c, j) <==> Used(t, c, j);
      case StoringStart(b, i, r) =>
        assert u.buckets[b][i] == r;
        assert forall c: nat, j: nat :: Used(u, c, j) <==> Used(t, c, j) || (c == b && j == i);
      case Following(b, r) => assert forall c: nat, j: nat :: Used(u, c, j) <==> Used(t, c, j);
      case Linking(b, r) =>
        assert u.buckets[b + 1][0] == r;
        assert forall c: nat, j: nat :: Used(u, c, j) <==> Used(t, c, j) || (c == b + 1 && j == 0);
    }
  }

  lemma WriteFinished(t: Table)
    requires Inv(t) && WriterEnabled(t)
    ensures FinishedOk(WriterStep(t))
  {
    hide ReaderOk, Ahead;
    WriteShape(t);
    var u := WriterStep(t);
    forall r | r in u.finished ensures Ahead(u, 0, 0, r) {
      if r in t.finished {
        AheadKept(t, u, 0, 0, r);
      } else {
        match t.writer {
          case StoringStart(b, i, _) => PlacedAhead(u, b, i, r);
          case Linking(b, _) => PlacedAhead(u, b + 1, 0, r);
          case _ =>
        }
      }
    }
  }

  lemma PlacedAhead(t: Table, b: nat, i: nat, r: Range)
    requires InTable(t, b, i) && t.buckets[b][i] == r && r.start != 0
    ensures Ahead(t, 0, 0, r)
  {
  }

  /** Ranges start at the address of a loaded segment, which is not zero. */
  predicate Sensible(a: Action) { a.BeginAppend? ==> a.r.start != 0 }

  lemma StepInv(t: Table, a: Action)
    requires Inv(t) && Enabled(t, a) && Sensible(a)
    ensures Inv(Step(t, a)) && Extends(t, Step(t, a))
  {
    hide ReaderOk, Ahead;
    var u := Step(t, a);
    match a {
      case BeginAppend(r) =>
        assert forall b: nat, i: nat :: Used(u, b, i) <==> Used(t, b, i);
        assert Extends(t, u);
        forall x | x in u.finished ensures Ahead(u, 0, 0, x) { AheadKept(t, u, 0, 0, x); }
        forall k | 0 <= k < |u.readers| ensures ReaderOk(u, u.readers[k]) { ReaderKept(t, u, u.readers[k]); }
      case Write =>
        WriteShape(t);
        WriteFinished(t);
        forall k | 0 <= k < |u.readers| ensures ReaderOk(u, u.readers[k]) { ReaderKept(t, u, u.readers[k]); }
      case BeginRead(addr, length, lowest, highest) =>
        SameTable(t, u);
        forall k | 0 <= k < |u.readers| ensures ReaderOk(u, u.readers[k]) {
          if k < |t.readers| { ReaderKept(t, u, u.readers[k]); } else { FreshReader(u, u.readers[k]); }
        }
      case Read(n) =>
        SameTable(t, u);
        ReaderStepOk(t, n);
        forall k | 0 <= k < |u.readers| ensures ReaderOk(u, u.readers[k]) { ReaderKept(t, u, u.readers[k]); }
    }
  }

  lemma SameTable(t: Table, u: Table)
    requires Shape(t) && WriterOk(t) && ContentsOk(t) && FinishedOk(t)
    requires u.buckets == t.buckets && u.writer == t.writer && u.begun == t.begun && u.finished == t.finished
    ensures Extends(t, u) && Shape(u) && WriterOk(u) && ContentsOk(u) && FinishedOk(u)
  {
    assert forall b: nat, i: nat :: Used(u, b, i) <==> Used(t, b, i);
    forall r | r in u.finished ensures Ahead(u, 0, 0, r) { AheadKept(t, u, 0, 0, r); }
  }

  lemma FreshReader(t: Table, rd: Reader)
    requires Shape(t) && FinishedOk(t)
    requires (rd.place == Answered(false) && rd.due == {}) || (rd.place == TestFrom(t, 0, 0) && rd.due == t.finished)
    ensures ReaderOk(t, rd)
  {
    hide Ahead;
  }

  // ----- whole runs ---------------------------------------------------------------------------

  predicate CanRun(actions: seq<Action>)
    decreases |actions|, 0
  {
    actions == [] ||
    var front, a := actions[..|actions| - 1], actions[|actions| - 1];
    CanRun(front) && Sensible(a) && Run(front).buckets != [] && Enabled(Run(front), a)
  }

  function Run(actions: seq<Action>): Table
    requires CanRun(actions)
    decreases |actions|, 1
  {
    if actions == [] then START else Step(Run(actions[..|actions| - 1]), actions[|actions| - 1])
  }

  lemma {:induction false} RunInv(actions: seq<Action>)
    requires CanRun(actions)
    ensures Inv(Run(actions))
  {
    if actions == [] {
      assert forall b: nat, i: nat :: !Used(START, b, i);
    } else {
      hide Inv, Step;
      RunInv(actions[..|actions| - 1]);
      StepInv(Run(actions[..|actions| - 1]), actions[|actions| - 1]);
    }
  }

  /** Over every interleaving buckets stay prefix-filled and only full buckets have a successor. */
  lemma TableShape(actions: seq<Action>)
    requires CanRun(actions)
    ensures Shape(Run(actions))
  {
    RunInv(actions);
  }

  // ----- a query that runs past the end of the address space --------------------------------------

  const APPENDED := Range(0x1000, 0x3000)
  const WRAPPING_LENGTH: uint64 := TWO_64 - 0x1000

  /** One range is appended, then a query from inside it runs past the end of the address space. */
  const WRAPPING: seq<Action> := [
    BeginAppend(APPENDED), Write, Write, Write,
    BeginRead(0x2000, WRAPPING_LENGTH, 0x1000, 0x3000), Read(0), Read(0), Read(0)]

  lemma RunSnoc(actions: seq<Action>, a: Action)
    requires CanRun(actions) && Sensible(a) && Run(actions).buckets != [] && Enabled(Run(actions), a)
    ensures CanRun(actions + [a]) && Run(actions + [a]) == Step(Run(actions), a)
  {
    assert (actions + [a])[..|actions|] == actions;
  }

  lemma NothingRun()
    ensures CanRun([]) && Run([]) == START
  {
  }

  lemma FirstSlot(t: Table, was: Slot, now: Slot)
    requires t.buckets == [[was, EMPTY]]
    ensures SetSlot(t, 0, 0, now) == [[now, EMPTY]]
  {
    assert [was, EMPTY][0 := now] == [now, EMPTY];
  }

  lemma AppendedRun()
    ensures CanRun(WRAPPING[..4])
    ensures Run(WRAPPING[..4]) == Table([[APPENDED, EMPTY]], Idle, [], {APPENDED}, {APPENDED})
  {
    hide Run, CanRun, SetSlot;
    assert CanRun([]) && Run([]) == START by { NothingRun(); }
    assert Blank(FIRST_SIZE) == [EMPTY, EMPTY];
    var t := START.(begun := {APPENDED});
    assert WRAPPING[..0] == [];
    RunSnoc(WRAPPING[..0], WRAPPING[0]);
    assert WRAPPING[..0] + [WRAPPING[0]] == WRAPPING[..1];
    assert Run(WRAPPING[..1]) == t.(writer := Scanning(0, 0, APPENDED));
    RunSnoc(WRAPPING[..1], Write);
    assert WRAPPING[..1] + [Write] == WRAPPING[..2];
    assert Run(WRAPPING[..2]) == t.(writer := StoringEnd(0, 0, APPENDED));
    FirstSlot(Run(WRAPPING[..2]), EMPTY, Range(0, 0x3000));
    RunSnoc(WRAPPING[..2], Write);
    assert WRAPPING[..2] + [Write] == WRAPPING[..3];
    assert Run(WRAPPING[..3]) == t.(buckets := [[Range(0, 0x3000), EMPTY]], writer := StoringStart(0, 0, APPENDED));
    FirstSlot(Run(WRAPPING[..3]), Range(0, 0x3000), APPENDED);
    RunSnoc(WRAPPING[..3], Write);
    assert WRAPPING[..3] + [Write] == WRAPPING[..4];
  }

  /** It is answered true although no appended range holds what it asks for. */
  lemma WrappingAnswer()
    ensures CanRun(WRAPPING)
    ensures var t := Run(WRAPPING);
            && |t.readers| == 1 && t.readers[0].place == Answered(true)
            && t.readers[0].addr == 0x2000 && t.readers[0].length == WRAPPING_LENGTH
            && forall r :: r in t.begun ==> !(r.start <= 0x2000 && 0x2000 + WRAPPING_LENGTH <= r.end)
  {
    AppendedRun();
    assert Limit(0x2000, WRAPPING_LENGTH) == 0x1000;
    var asked := Reader(0x2000, WRAPPING_LENGTH, Testing(0, 0), {APPENDED});
    var t := Table([[APPENDED, EMPTY]], Idle, [asked], {APPENDED}, {APPENDED});
    RunSnoc(WRAPPING[..4], WRAPPING[4]);
    assert WRAPPING[..4] + [WRAPPING[4]] == WRAPPING[..5];
    assert Run(WRAPPING[..5]) == t;
    RunSnoc(WRAPPING[..5], Read(0));
    assert WRAPPING[..5] + [Read(0)] == WRAPPING[..6];
    assert Run(WRAPPING[..6]) == t.(readers := [asked.(place := ComparingStart(0, 0))]);
    RunSnoc(WRAPPING[..6], Read(0));
    assert WRAPPING[..6] + [Read(0)] == WRAPPING[..7];
    assert Run(WRAPPING[..7]) == t.(readers := [asked.(place := ComparingEnd(0, 0))]);
    RunSnoc(WRAPPING[..7], Read(0));
    assert WRAPPING[..7] + [Read(0)] == WRAPPING;
  }
}
