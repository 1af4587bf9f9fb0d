/** Bind locations compressed into start/skip/repeat patterns, and the replay that expands them. */
module BindPatterns {
  import opened MachineWords

  /** A resolved symbol target, compared by its raw 64 bits. */
  type Target = uint64

  datatype BindPattern = BindPattern(target: Target, startVmOffset: uint40, skipCount: uint8, repeatCount: uint16)

  type Bind = (uint64, Target)

  // ----- replay ---------------------------------------------------------------------------

  /** The location of the n-th bind of a pattern. */
  function Location(p: PointerSize, pat: BindPattern, n: nat): uint64
  {
    if n == 0 then pat.startVmOffset else Wrap64(Location(p, pat, n - 1) + Pointers(p, 1 + pat.skipCount))
  }

  function Expand(p: PointerSize, pat: BindPattern, n: nat): seq<Bind>
  {
    if n == 0 then [] else Expand(p, pat, n - 1) + [(Location(p, pat, n - 1), pat.target)]
  }

  function Replay(p: PointerSize, pats: seq<BindPattern>): seq<Bind>
  {
    if pats == [] then [] else
    Replay(p, pats[..|pats| - 1]) + Expand(p, pats[|pats| - 1], pats[|pats| - 1].repeatCount)
  }

  method ForEachBind(p: PointerSize, pats: seq<BindPattern>) returns (binds: seq<Bind>)
    ensures binds == Replay(p, pats)
  {
    binds := [];
    for k := 0 to |pats|
      invariant binds == Replay(p, pats[..k])
    {
      ghost var before := binds;
      var pat := pats[k];
      var curBindOffset: uint64 := pat.startVmOffset;
      for i := 0 to pat.repeatCount
        invariant curBindOffset == Location(p, pat, i)
        invariant binds == before + Expand(p, pat, i)
      {
        binds := binds + [(curBindOffset, pat.target)];
        curBindOffset := Wrap64(curBindOffset + Pointers(p, 1 + pat.skipCount));
      }
      assert pats[..k + 1][..k] == pats[..k];
    }
    assert pats[..|pats|] == pats;
  }

  // ----- encoder --------------------------------------------------------------------------

  datatype Builder = Builder(entries: seq<BindPattern>, lastOffset: uint64, lastTarget: Target)

  function Fresh(p: PointerSize): Builder { Builder([], TWO_64 - p, 0) }

  /** The first entry that binds exactly this location and nothing else; the length when there is none. */
  function Coalesced(e: seq<BindPattern>, offset: uint64): (k: nat)
    ensures k <= |e|
    ensures k < |e| ==> e[k].startVmOffset == offset && e[k].repeatCount == 1 && e[k].skipCount == 0
    ensures forall j :: 0 <= j < k ==> !(e[j].startVmOffset == offset && e[j].repeatCount == 1 && e[j].skipCount == 0)
  {
    if e == [] then 0
    else if e[0].startVmOffset == offset && e[0].repeatCount == 1 && e[0].skipCount == 0 then 0
    else 1 + Coalesced(e[1..], offset)
  }

  function Gap(p: PointerSize, b: Builder, offset: uint64): uint64
  {
    Wrap64(Wrap64(offset - b.lastOffset) - p)
  }

  function SkipAmount(p: PointerSize, b: Builder, offset: uint64): uint64
  {
    InPointers(p, Gap(p, b, offset))
  }

  predicate Aligns(p: PointerSize, b: Builder, offset: uint64, target: Target)
  {
    target == b.lastTarget && offset > b.lastOffset && b.entries != []
    && Pointers(p, SkipAmount(p, b, offset)) == Gap(p, b, offset)
  }

  predicate StartsRun(p: PointerSize, b: Builder, offset: uint64)
    requires b.entries != []
  {
    var back := b.entries[|b.entries| - 1];
    back.repeatCount == 1 && back.skipCount == 0 && SkipAmount(p, b, offset) <= 255
  }

  predicate ExtendsRun(p: PointerSize, b: Builder, offset: uint64)
    requires b.entries != []
  {
    var back := b.entries[|b.entries| - 1];
    back.skipCount == SkipAmount(p, b, offset) && back.repeatCount < 0xfff
  }

  predicate Duplicate(b: Builder, offset: uint64, target: Target)
  {
    target == b.lastTarget && offset == b.lastOffset && b.entries != []
  }

  predicate Merges(p: PointerSize, b: Builder, offset: uint64, target: Target)
  {
    Duplicate(b, offset, target)
    || (Aligns(p, b, offset, target) && (StartsRun(p, b, offset) || ExtendsRun(p, b, offset)))
  }

  /** A location starting a new pattern must fit in 40 bits; the encoder asserts it. */
  predicate Accepts(p: PointerSize, b: Builder, offset: uint64, target: Target, weak: bool)
  {
    (weak && Coalesced(b.entries, offset) < |b.entries|) || Merges(p, b, offset, target) || offset < 0x100_0000_0000
  }

  function ReplaceBack(e: seq<BindPattern>, pat: BindPattern): seq<BindPattern>
    requires e != []
  {
    e[..|e| - 1] + [pat]
  }

  function AppendEntries(p: PointerSize, b: Builder, offset: uint64, target: Target): seq<BindPattern>
    requires Accepts(p, b, offset, target, false)
  {
    var e := b.entries;
    if Aligns(p, b, offset, target) && StartsRun(p, b, offset) then
      ReplaceBack(e, e[|e| - 1].(repeatCount := 2, skipCount := SkipAmount(p, b, offset)))
    else if Aligns(p, b, offset, target) && ExtendsRun(p, b, offset) then
      ReplaceBack(e, e[|e| - 1].(repeatCount := e[|e| - 1].repeatCount + 1))
    else if Duplicate(b, offset, target) then e
    else e + [BindPattern(target, offset, 0, 1)]
  }

  function Added(p: PointerSize, b: Builder, offset: uint64, target: Target, weak: bool): Builder
    requires Accepts(p, b, offset, target, weak)
  {
    var k := Coalesced(b.entries, offset);
    if weak && k < |b.entries| then b.(entries := b.entries[k := b.entries[k].(target := target)])
    else Builder(AppendEntries(p, b, offset, target), offset, target)
  }

  class BindPatternBuilder {
    var entries: seq<BindPattern>
    var lastOffset: uint64
    var lastTarget: Target
    const ptrSize: PointerSize

    function Value(): Builder
      reads this
    {
      Builder(entries, lastOffset, lastTarget)
    }

    constructor (p: PointerSize)
      ensures ptrSize == p && Value() == Fresh(p)
    {
      entries, lastOffset, lastTarget, ptrSize := [], TWO_64 - p, 0, p;
    }

    /** The scan for an earlier bind of this very location. */
    method Coalesce(offset: uint64, target: Target) returns (found: bool)
      modifies this`entries
      ensures found == (Coalesced(old(entries), offset) < |old(entries)|)
      ensures !found ==> entries == old(entries)
      ensures found ==> var k := Coalesced(old(entries), offset);
                        entries == old(entries)[k := old(entries)[k].(target := target)]
      ensures found <==> exists k :: 0 <= k < |old(entries)| && old(entries)[k].startVmOffset == offset
                                     && old(entries)[k].repeatCount == 1 && old(entries)[k].skipCount == 0
    {
      found := false;
      for k := 0 to |entries|
        invariant entries == old(entries) && Coalesced(entries, offset) == k + Coalesced(entries[k..], offset)
      {
        if entries[k].startVmOffset == offset && entries[k].repeatCount == 1 && entries[k].skipCount == 0 {
          entries := entries[k := entries[k].(target := target)];
          return true;
        }
        assert entries[k..][1..] == entries[k + 1..];
      }
    }

    method Add(offset: uint64, target: Target, weakBindCoalesce: bool)
      requires Accepts(ptrSize, Value(), offset, target, weakBindCoalesce)
      modifies this
      ensures Value() == Added(ptrSize, old(Value()), offset, target, weakBindCoalesce)
    {
      hide Wrap64, InPointers, Pointers;
      if weakBindCoalesce {
        var found := Coalesce(offset, target);
        if found { return; }
      }
      var mergedIntoPrevious := false;
      var last := |entries| - 1;
      if target == lastTarget && offset > lastOffset && entries != [] {
        var skipAmount := InPointers(ptrSize, Wrap64(Wrap64(offset - lastOffset) - ptrSize));
        if Pointers(ptrSize, skipAmount) == Wrap64(Wrap64(offset - lastOffset) - ptrSize) {
          var back := entries[last];
          if back.repeatCount == 1 && back.skipCount == 0 && skipAmount <= 255 {
            entries := entries[..last] + [back.(repeatCount := 2, skipCount := skipAmount)];
            mergedIntoPrevious := true;
          } else if back.skipCount == skipAmount && back.repeatCount < 0xfff {
            entries := entries[..last] + [back.(repeatCount := back.repeatCount + 1)];
            mergedIntoPrevious := true;
          }
        }
      }
      if target == lastTarget && offset == lastOffset && entries != [] {
        mergedIntoPrevious := true;
      }
      if !mergedIntoPrevious {
        entries := entries + [BindPattern(target, offset, 0, 1)];
      }
      lastTarget, lastOffset := target, offset;
    }
  }
}
