/**
 Rebase locations compressed into repeat/contig/skip patterns, and the replay
 that expands them again.
 */
module RebasePatterns {
  import opened MachineWords

  /** A packed pattern: 20-bit repeat, 8-bit contig, 4-bit skip. */
  datatype RebasePattern = RebasePattern(repeatCount: uint20, contigCount: uint8, skipCount: uint4)

  const MAX_REPEAT: uint20 := 0xF_FFFF
  const MAX_SKIP: uint4 := 15
  const MAX_LEAP: int := 0xF_FFFF * 15
  const RESET := RebasePattern(0, 0, 0)
  const SINGLE := RebasePattern(1, 1, 0)

  // ----- replay ---------------------------------------------------------------------------

  /** `n` adjacent pointers starting at `cur`. */
  function Run(p: PointerSize, cur: uint64, n: uint8): seq<uint64>
  {
    if n == 0 then [] else Run(p, cur, n - 1) + [Wrap64(cur + Pointers(p, n - 1))]
  }

  /** Where `r` groups of `c` pointers followed by a skip of `s` pointers leave the cursor. */
  function GroupsEnd(p: PointerSize, cur: uint64, r: nat, c: uint8, s: uint4): uint64
  {
    if r == 0 then cur else Wrap64(GroupsEnd(p, cur, r - 1, c, s) + Pointers(p, c + s))
  }

  function Groups(p: PointerSize, cur: uint64, r: nat, c: uint8, s: uint4): seq<uint64>
  {
    if r == 0 then [] else Groups(p, cur, r - 1, c, s) + Run(p, GroupsEnd(p, cur, r - 1, c, s), c)
  }

  function PatternOutput(p: PointerSize, pat: RebasePattern, cur: uint64): seq<uint64>
  {
    if pat.contigCount == 0 then [] else Groups(p, cur, pat.repeatCount, pat.contigCount, pat.skipCount)
  }

  /** The distance an advance-only entry covers. */
  function LeapLength(pat: RebasePattern): (n: nat)
    ensures n <= MAX_LEAP
  {
    LeapBound(pat.repeatCount, pat.skipCount);
    pat.repeatCount * pat.skipCount
  }

  lemma LeapBound(r: uint20, s: uint4)
    ensures 0 <= r * s <= MAX_LEAP
  {
    assert r * s <= MAX_REPEAT * s;
  }

  function PatternEnd(p: PointerSize, pat: RebasePattern, cur: uint64): uint64
  {
    if pat.contigCount == 0 then
      if pat == RESET then 0 else Wrap64(cur + LeapLength(pat))
    else
      GroupsEnd(p, cur, pat.repeatCount, pat.contigCount, pat.skipCount)
  }

  /** The cursor after replaying all patterns, and the locations replayed. */
  function Cursor(p: PointerSize, pats: seq<RebasePattern>): uint64
  {
    if pats == [] then 0 else PatternEnd(p, pats[|pats| - 1], Cursor(p, pats[..|pats| - 1]))
  }

  function Replay(p: PointerSize, pats: seq<RebasePattern>): seq<uint64>
  {
    if pats == [] then [] else
    var front := pats[..|pats| - 1];
    Replay(p, front) + PatternOutput(p, pats[|pats| - 1], Cursor(p, front))
  }

  /** The innermost loop of the fixup walk: one group of contiguous pointers. */
  method ReplayRun(p: PointerSize, start: uint64, n: uint8) returns (locations: seq<uint64>, cur: uint64)
    ensures locations == Run(p, start, n) && cur == Wrap64(start + Pointers(p, n))
  {
    locations, cur := [], start;
    for i := 0 to n
      invariant cur == Wrap64(start + Pointers(p, i))
      invariant locations == Run(p, start, i)
    {
      locations := locations + [cur];
      WrapAdd(start + Pointers(p, i), p);
      cur := Wrap64(cur + p);
    }
  }

  /** One rebasing pattern of the fixup walk: the loop over repeats. */
  method ReplayGroups(p: PointerSize, pat: RebasePattern, start: uint64) returns (locations: seq<uint64>, cur: uint64)
    requires pat.contigCount != 0
    ensures locations == PatternOutput(p, pat, start) && cur == PatternEnd(p, pat, start)
  {
    locations, cur := [], start;
    for r := 0 to pat.repeatCount
      invariant cur == GroupsEnd(p, start, r, pat.contigCount, pat.skipCount)
      invariant locations == Groups(p, start, r, pat.contigCount, pat.skipCount)
    {
      var some, next := ReplayRun(p, cur, pat.contigCount);
      WrapAdd(cur + Pointers(p, pat.contigCount), Pointers(p, pat.skipCount));
      locations, cur := locations + some, Wrap64(next + Pointers(p, pat.skipCount));
    }
  }

  /** The rebase part of the fixup walk. */
  method ForEachRebase(p: PointerSize, pats: seq<RebasePattern>) returns (locations: seq<uint64>)
    ensures locations == Replay(p, pats)
  {
    locations := [];
    var cur: uint64 := 0;
    for k := 0 to |pats|
      invariant locations == Replay(p, pats[..k])
      invariant cur == Cursor(p, pats[..k])
    {
      var pat := pats[k];
      assert pats[..k + 1][..k] == pats[..k];
      if pat.contigCount != 0 {
        var some, next := ReplayGroups(p, pat, cur);
        locations, cur := locations + some, next;
      } else if pat.repeatCount == 0 && pat.skipCount == 0 {
        cur := 0;
      } else {
        cur := Wrap64(cur + LeapLength(pat));
      }
    }
    assert pats[..|pats|] == pats;
  }

  // ----- encoder --------------------------------------------------------------------------

  /** Builder state: the entries so far and the last location added. */
  datatype Builder = Builder(entries: seq<RebasePattern>, lastLocation: uint64)

  function Fresh(p: PointerSize): Builder { Builder([], TWO_64 - p) }

  /** Advance-only entries covering a distance of `advance` bytes. */
  function NearLeaps(advance: nat): seq<RebasePattern>
    requires advance <= MAX_LEAP
  {
    if advance > MAX_REPEAT then [RebasePattern(advance / 15, 0, 15)] + NearLeaps(advance - advance / 15 * 15)
    else if advance != 0 then [RebasePattern(advance, 0, 1)]
    else []
  }

  function Leaps(advance: uint64): seq<RebasePattern>
  {
    if advance > MAX_LEAP then [RebasePattern(MAX_REPEAT, 0, MAX_SKIP)] + Leaps(advance - MAX_LEAP)
    else NearLeaps(advance)
  }

  function Delta(b: Builder, offset: uint64): uint64 { Wrap64(offset - b.lastLocation) }

  predicate WithinSkip(p: PointerSize, b: Builder, offset: uint64)
  {
    var delta := Delta(b, offset);
    delta != p && Aligned(p, delta) && delta <= Pointers(p, 15)
  }

  /** Both merging branches read the last entry, so the array must not be empty there. */
  predicate Accepts(p: PointerSize, b: Builder, offset: uint64)
  {
    b.entries != [] || !(Delta(b, offset) == p || WithinSkip(p, b, offset))
  }

  /** The skip in pointers, cut to eight bits by the cast and then to the four bits of the field. */
  function SkipField(p: PointerSize, delta: uint64): uint4
  {
    InPointers(p, Wrap64(delta - p)) % 0x10
  }

  /** The last two entries have equal contig and skip counts, with the array long enough to look. */
  predicate Mergeable(e: seq<RebasePattern>)
  {
    |e| > 2 && e[|e| - 1].contigCount == e[|e| - 2].contigCount && e[|e| - 1].skipCount == e[|e| - 2].skipCount
  }

  /** Drop the last entry and count one more repeat, modulo 2^20, of the entry before it. */
  function Merged(e: seq<RebasePattern>): seq<RebasePattern>
    requires |e| > 1
  {
    var prev := e[|e| - 2];
    e[..|e| - 2] + [prev.(repeatCount := (prev.repeatCount + 1) % 0x10_0000)]
  }

  function WithSkip(e: seq<RebasePattern>, skip: uint4): seq<RebasePattern>
    requires e != []
  {
    e[..|e| - 1] + [e[|e| - 1].(skipCount := skip)]
  }

  function AfterSkip(p: PointerSize, b: Builder, offset: uint64): seq<RebasePattern>
    requires b.entries != []
  {
    var e := WithSkip(b.entries, SkipField(p, Delta(b, offset)));
    if Mergeable(e) then Merged(e) else e
  }

  predicate Backward(p: PointerSize, b: Builder, offset: uint64)
  {
    offset < b.lastLocation && b.lastLocation != TWO_64 - p
  }

  function AfterLeap(p: PointerSize, b: Builder, offset: uint64): seq<RebasePattern>
  {
    if Backward(p, b, offset) then b.entries + [RESET] + Leaps(offset)
    else b.entries + Leaps(Wrap64(Delta(b, offset) - p))
  }

  function Added(p: PointerSize, b: Builder, offset: uint64): Builder
    requires Accepts(p, b, offset)
  {
    var e := b.entries;
    if Delta(b, offset) == p && e[|e| - 1].contigCount < 255 then
      Builder(e[..|e| - 1] + [e[|e| - 1].(contigCount := e[|e| - 1].contigCount + 1)], offset)
    else if Delta(b, offset) == p then Builder(e + [SINGLE], offset)
    else if WithinSkip(p, b, offset) then Builder(AfterSkip(p, b, offset) + [SINGLE], offset)
    else Builder(AfterLeap(p, b, offset) + [SINGLE], offset)
  }

  class RebasePatternBuilder {
    var entries: seq<RebasePattern>
    var lastLocation: uint64
    const ptrSize: PointerSize

    function Value(): Builder
      reads this
    {
      Builder(entries, lastLocation)
    }

    constructor (p: PointerSize)
      ensures ptrSize == p && Value() == Fresh(p)
    {
      entries := [];
      lastLocation := TWO_64 - p;
      ptrSize := p;
    }

    /** The distant-location branch: reset when moving backward, then series of leaps. */
    method PushLeaps(offset: uint64)
      modifies this`entries
      ensures entries == AfterLeap(ptrSize, old(Value()), offset)
    {
      var advanceCount: uint64 := Wrap64(Wrap64(offset - lastLocation) - ptrSize);
      if offset < lastLocation && lastLocation != TWO_64 - ptrSize {
        entries := entries + [RebasePattern(0, 0, 0)];
        advanceCount := offset;
      }
      ghost var goal := entries + Leaps(advanceCount);
      while advanceCount > MAX_LEAP
        invariant entries + Leaps(advanceCount) == goal
      {
        entries := entries + [RebasePattern(MAX_REPEAT, 0, MAX_SKIP)];
        advanceCount := advanceCount - MAX_LEAP;
      }
      while advanceCount > MAX_REPEAT
        invariant 0 <= advanceCount <= MAX_LEAP && entries + NearLeaps(advanceCount) == goal
      {
        var count := advanceCount / 15;
        entries := entries + [RebasePattern(count, 0, 15)];
        advanceCount := advanceCount - count * 15;
      }
      if advanceCount != 0 {
        entries := entries + [RebasePattern(advanceCount, 0, 1)];
      }
    }

    method Add(offset: uint64)
      requires Accepts(ptrSize, Value(), offset)
      modifies this
      ensures Value() == Added(ptrSize, old(Value()), offset)
    {
      var delta := Wrap64(offset - lastLocation);
      var last := |entries| - 1;
      if delta == ptrSize {
        if entries[last].contigCount < 255 {
          entries := entries[..last] + [entries[last].(contigCount := entries[last].contigCount + 1)];
        } else {
          entries := entries + [RebasePattern(1, 1, 0)];
        }
      } else if Aligned(ptrSize, delta) && delta <= Pointers(ptrSize, 15) {
        entries := entries[..last] + [entries[last].(skipCount := SkipField(ptrSize, delta))];
        if last > 1 {
          var prev := entries[last - 1];
          if entries[last].contigCount == prev.contigCount && entries[last].skipCount == prev.skipCount {
            entries := entries[..last - 1] + [prev.(repeatCount := (prev.repeatCount + 1) % 0x10_0000)];
          }
        }
        entries := entries + [RebasePattern(1, 1, 0)];
      } else {
        PushLeaps(offset);
        entries := entries + [RebasePattern(1, 1, 0)];
      }
      lastLocation := offset;
    }
  }
}
