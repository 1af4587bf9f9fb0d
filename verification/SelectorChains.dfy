/** Selector references encoded as chains in which starts and entries share one untagged word format. */
module SelectorChains {
  import opened MachineWords
  import opened Wrappers

  /** A selector reference: where it is, and the table entry it refers to. */
  datatype SelectorFixup = SelectorFixup(offset: uint32, index: uint24, inSharedCache: bool)

  const MAX_CHAIN_OFFSET := 4 * 127

  /** A chain entry: 24-bit index, 7-bit distance to the next fixup in words, 1-bit table choice. */
  function Entry(f: SelectorFixup, next: uint7): uint32
  {
    f.index + next * 0x100_0000 + if f.inSharedCache then 0x8000_0000 else 0
  }

  function IndexOf(w: uint32): uint24 { w % 0x100_0000 }

  function NextOf(w: uint32): uint7 { w / 0x100_0000 % 0x80 }

  predicate SharedOf(w: uint32) { w >= 0x8000_0000 }

  function WithNext(w: uint32, next: uint7): uint32
  {
    IndexOf(w) + next * 0x100_0000 + if SharedOf(w) then 0x8000_0000 else 0
  }

  lemma EntryFields(f: SelectorFixup, next: uint7)
    ensures IndexOf(Entry(f, next)) == f.index && NextOf(Entry(f, next)) == next
    ensures SharedOf(Entry(f, next)) <==> f.inSharedCache
    ensures forall n: uint7 :: WithNext(Entry(f, next), n) == Entry(f, n)
  {
  }

  // ----- encoder --------------------------------------------------------------------------

  /** The previous chain reaches this offset; a backward distance wraps and does not. */
  predicate Chained(prev: uint32, offset: uint32)
  {
    prev <= offset && offset - prev <= MAX_CHAIN_OFFSET
  }

  function Distance(prev: uint32, offset: uint32): uint7
    requires Chained(prev, offset)
  {
    (offset - prev) / 4
  }

  /** The distance stored in an entry: to the fixup after it if the chain reaches that, else zero. */
  function Following(f: SelectorFixup, rest: seq<SelectorFixup>): uint7
  {
    if rest != [] && Chained(f.offset, rest[0].offset) then Distance(f.offset, rest[0].offset) else 0
  }

  /** The words for the fixups after one at `prev`. */
  function Words(prev: uint32, fixups: seq<SelectorFixup>): seq<uint32>
    decreases |fixups|
  {
    if fixups == [] then [] else
    (if Chained(prev, fixups[0].offset) then [] else [fixups[0].offset])
    + [Entry(fixups[0], Following(fixups[0], fixups[1..]))] + Words(fixups[0].offset, fixups[1..])
  }

  /** Encoding starts from offset zero and cannot extend a chain that does not exist. */
  function Encode(fixups: seq<SelectorFixup>): Option<seq<uint32>>
  {
    if fixups != [] && Chained(0, fixups[0].offset) then None else Some(Words(0, fixups))
  }

  function Last(prev: uint32, fixups: seq<SelectorFixup>): uint32
  {
    if fixups == [] then prev else fixups[|fixups| - 1].offset
  }

  lemma WordsCons(prev: uint32, g: SelectorFixup, tail: seq<SelectorFixup>)
    ensures Words(prev, [g] + tail) ==
              (if Chained(prev, g.offset) then [] else [g.offset])
              + ([Entry(g, Following(g, tail))] + Words(g.offset, tail))
  {
    assert ([g] + tail)[1..] == tail;
  }

  /** The words after one more fixup: the last entry gets its distance or a chain starts, then the entry is added. */
  function Pushed(words: seq<uint32>, last: uint32, f: SelectorFixup): seq<uint32>
    requires words != []
  {
    (if Chained(last, f.offset) then words[..|words| - 1] + [WithNext(words[|words| - 1], Distance(last, f.offset))]
     else words + [f.offset])
    + [Entry(f, 0)]
  }

  lemma PushedFront(front: seq<uint32>, words: seq<uint32>, last: uint32, f: SelectorFixup)
    requires words != []
    ensures Pushed(front + words, last, f) == front + Pushed(words, last, f)
  {
    assert (front + words)[..|front + words| - 1] == front + words[..|words| - 1];
  }

  lemma {:induction false} WordsSnoc(prev: uint32, fixups: seq<SelectorFixup>, f: SelectorFixup)
    requires fixups != []
    ensures Words(prev, fixups) != []
    ensures Words(prev, fixups + [f]) == Pushed(Words(prev, fixups), Last(prev, fixups), f)
    decreases |fixups|
  {
    hide Entry, WithNext, Words, Pushed;
    var g, rest := fixups[0], fixups[1..];
    assert fixups == [g] + rest && fixups + [f] == [g] + (rest + [f]);
    EntryFields(g, Following(g, rest));
    WordsCons(prev, g, rest);
    WordsCons(prev, g, rest + [f]);
    var start := if Chained(prev, g.offset) then [] else [g.offset];
    var e := Entry(g, Following(g, rest));
    if rest == [] {
      assert fixups == [g] && fixups + [f] == [g, f];
      LastWord(prev, g, f);
    } else {
      WordsSnoc(g.offset, rest, f);
      assert (rest + [f])[0] == rest[0];
      PushedFront(start + [e], Words(g.offset, rest), Last(prev, fixups), f);
      assert start + ([e] + Words(g.offset, rest)) == (start + [e]) + Words(g.offset, rest);
      assert start + ([e] + Words(g.offset, rest + [f])) == (start + [e]) + Words(g.offset, rest + [f]);
    }
  }

  lemma LastWord(prev: uint32, g: SelectorFixup, f: SelectorFixup)
    ensures Words(prev, [g, f]) == Pushed(Words(prev, [g]), g.offset, f)
  {
    hide Entry, WithNext;
    EntryFields(g, 0);
    WordsCons(prev, g, [f]);
    WordsCons(prev, g, []);
    WordsCons(g.offset, f, []);
    assert [g] + [f] == [g, f] && [g] + [] == [g] && [f] + [] == [f];
    var start := if Chained(prev, g.offset) then [] else [g.offset];
    assert Words(prev, [g]) == start + [Entry(g, 0)];
  }

  /** The builder's loop: extend the previous chain in place or start a new one, then push the entry. */
  method EncodeSelectorReferences(fixups: seq<SelectorFixup>) returns (selRefFixups: Option<seq<uint32>>)
    ensures selRefFixups == Encode(fixups)
  {
    hide WithNext, Entry;
    var words: seq<uint32> := [];
    var prevVMOffset: uint32 := 0;
    for k := 0 to |fixups|
      invariant Encode(fixups[..k]) == Some(words) && prevVMOffset == Last(0, fixups[..k])
    {
      var f := fixups[k];
      assert fixups[..k + 1] == fixups[..k] + [f];
      if k > 0 { WordsSnoc(0, fixups[..k], f); }
      if prevVMOffset <= f.offset && f.offset - prevVMOffset <= MAX_CHAIN_OFFSET {
        if words == [] {
          NoChain(fixups, k);
          return None;
        }
        words := words[..|words| - 1] + [WithNext(words[|words| - 1], (f.offset - prevVMOffset) / 4)];
      } else {
        words := words + [f.offset];
      }
      words := words + [Entry(f, 0)];
      if k == 0 {
        OneFixup(fixups[..1]);
        assert words == [f.offset, Entry(f, 0)];
      }
      assert fixups[..k + 1][0] == fixups[0];
      prevVMOffset := f.offset;
    }
    assert fixups[..|fixups|] == fixups;
    selRefFixups := Some(words);
  }

  lemma OneFixup(fixups: seq<SelectorFixup>)
    requires |fixups| == 1 && !Chained(0, fixups[0].offset)
    ensures Words(0, fixups) == [fixups[0].offset, Entry(fixups[0], 0)]
  {
    assert fixups[1..] == [];
  }

  lemma NoChain(fixups: seq<SelectorFixup>, k: nat)
    requires k < |fixups| && Words(0, fixups[..k]) == [] && Chained(Last(0, fixups[..k]), fixups[k].offset)
    ensures Encode(fixups) == None
  {
    if k > 0 { WordsSnoc(0, fixups[..k], fixups[k]); }
    assert k == 0;
  }

  // ----- decoder --------------------------------------------------------------------------

  datatype Reference = Reference(offset: nat, index: uint24, inSharedCache: bool)

  function Refer(f: SelectorFixup): Reference { Reference(f.offset, f.index, f.inSharedCache) }

  function ReferAll(fixups: seq<SelectorFixup>): (r: seq<Reference>)
    ensures |r| == |fixups| && forall k :: 0 <= k < |r| ==> r[k] == Refer(fixups[k])
  {
    seq(|fixups|, k requires 0 <= k < |fixups| => Refer(fixups[k]))
  }

  /** Between chains, or inside one with the next fixup at `offset`. */
  datatype Mode = Outside | Inside(offset: nat)

  /** The walk over the remaining words; None when a chain runs past the last word. */
  function Decode(m: Mode, words: seq<uint32>): Option<seq<Reference>>
    decreases |words|
  {
    if m.Outside? then
      if words == [] then Some([]) else Decode(Inside(words[0]), words[1..])
    else if words == [] then None
    else
      var w := words[0];
      match Decode(if NextOf(w) == 0 then Outside else Inside(m.offset + 4 * NextOf(w)), words[1..])
      case None => None
      case Some(rest) => Some([Reference(m.offset, IndexOf(w), SharedOf(w))] + rest)
  }

  /** The nested loops of the fixup walk; stops with None when a chain runs past the last word. */
  method ForEachSelectorReference(words: seq<uint32>) returns (r: Option<seq<Reference>>)
    ensures r == Decode(Outside, words)
  {
    var done: seq<Reference> := [];
    var i := 0;
    assert words[0..] == words;
    PrependNone(Decode(Outside, words));
    while i < |words|
      invariant i <= |words| && Decode(Outside, words) == Prepend(done, Decode(Outside, words[i..]))
    {
      var curFixupOffset: nat := words[i];
      assert words[i..][0] == words[i] && words[i..][1..] == words[i + 1..];
      ghost var mode := Inside(words[i]);
      i := i + 1;
      var more := true;
      while more
        invariant i <= |words| && mode == if more then Inside(curFixupOffset) else Outside
        invariant Decode(Outside, words) == Prepend(done, Decode(mode, words[i..]))
        decreases |words| - i, more
      {
        if i == |words| { return None; }
        var w := words[i];
        assert words[i..][0] == words[i] && words[i..][1..] == words[i + 1..];
        ghost var before := done;
        done := done + [Reference(curFixupOffset, IndexOf(w), SharedOf(w))];
        i := i + 1;
        more := NextOf(w) != 0;
        PrependOne(before, done[|before|], Decode(if more then Inside(curFixupOffset + 4 * NextOf(w)) else Outside, words[i..]));
        if more { curFixupOffset := curFixupOffset + 4 * NextOf(w); }
        mode := if more then Inside(curFixupOffset) else Outside;
      }
    }
    assert words[i..] == [] && done + [] == done;
    r := Some(done);
  }

  lemma PrependNone(r: Option<seq<Reference>>)
    ensures Prepend([], r) == r
  {
    if r.Some? { assert [] + r.value == r.value; }
  }

  function Prepend(done: seq<Reference>, rest: Option<seq<Reference>>): Option<seq<Reference>>
  {
    match rest case None => None case Some(s) => Some(done + s)
  }

  lemma PrependOne(done: seq<Reference>, r: Reference, rest: Option<seq<Reference>>)
    ensures Prepend(done + [r], rest) == Prepend(done, Prepend([r], rest))
  {
    if rest.Some? { assert done + [r] + rest.value == done + ([r] + rest.value); }
  }

  // ----- round trip -------------------------------------------------------------------------

  predicate AlignedOffsets(fixups: seq<SelectorFixup>)
  {
    forall k :: 0 <= k < |fixups| ==> fixups[k].offset % 4 == 0
  }

  /** No fixup has the offset of the one before it. */
  predicate NoRepeat(fixups: seq<SelectorFixup>)
  {
    forall k :: 0 < k < |fixups| ==> fixups[k].offset != fixups[k - 1].offset
  }

  /** Where the decoder stands after an entry. */
  function After(offset: nat, w: uint32): Mode { if NextOf(w) == 0 then Outside else Inside(offset + 4 * NextOf(w)) }

  lemma DecodeEntry(offset: nat, words: seq<uint32>)
    requires words != []
    ensures Decode(Inside(offset), words) ==
              Prepend([Reference(offset, IndexOf(words[0]), SharedOf(words[0]))], Decode(After(offset, words[0]), words[1..]))
  {
  }

  lemma Uncons(a: Reference, b: Reference, s: Option<seq<Reference>>, t: seq<Reference>)
    requires Prepend([a], s) == Some([b] + t)
    ensures a == b && s == Some(t)
  {
    assert ([a] + s.value)[0] == a && ([b] + t)[0] == b;
    assert ([a] + s.value)[1..] == s.value && ([b] + t)[1..] == t;
  }

  /** What is left after dropping `ahead` words and then `more`, in terms of the part behind `front`. */
  lemma TailOf(words: seq<uint32>, front: seq<uint32>, tail: seq<uint32>, ahead: nat, more: nat)
    requires words == front + tail && |front| < ahead + more <= |words| && more > 0
    ensures words[ahead..][more..] == tail[ahead + more - |front|..]
    ensures words[ahead..][more - 1] == tail[ahead + more - |front| - 1]
  {
    assert words[ahead..][more..] == words[ahead + more..];
  }

  /** A decoder that is words ahead of the encoding never gets the remaining fixups right. */
  lemma {:induction false} AheadFails(prev: uint32, fixups: seq<SelectorFixup>, ahead: nat, m: Mode)
    requires 1 <= ahead <= |Words(prev, fixups)| && m == After(prev, Words(prev, fixups)[ahead - 1])
    ensures Decode(m, Words(prev, fixups)[ahead..]) != Some(ReferAll(fixups))
    decreases |fixups|
  {
    hide NextOf, IndexOf, SharedOf, Entry;
    var words := Words(prev, fixups);
    if Decode(m, words[ahead..]) == Some(ReferAll(fixups)) {
      var f, rest := fixups[0], fixups[1..];
      assert ReferAll(fixups) == [Refer(f)] + ReferAll(rest);
      var tail := Words(f.offset, rest);
      if m.Outside? {
        var now := words[ahead..];
        assert now != [];
        assert Decode(m, now) == Decode(Inside(now[0]), now[1..]);
        assert now[1..] != [];
        DecodeEntry(now[0], now[1..]);
        var r := Reference(now[0], IndexOf(now[1]), SharedOf(now[1]));
        assert now[1..][0] == now[1] && now[1..][1..] == now[2..];
        Uncons(r, Refer(f), Decode(After(now[0], now[1]), now[2..]), ReferAll(rest));
        if Chained(prev, f.offset) {
          assert words == [words[0]] + tail;
          TailOf(words, [words[0]], tail, ahead, 2);
          AheadFails(f.offset, rest, ahead + 1, After(f.offset, now[1]));
        } else {
          assert words == [words[0], words[1]] + tail;
          TailOf(words, [words[0], words[1]], tail, ahead, 2);
          AheadFails(f.offset, rest, ahead, After(f.offset, now[1]));
        }
      } else {
        var now := words[ahead..];
        assert now != [];
        DecodeEntry(m.offset, now);
        var r := Reference(m.offset, IndexOf(now[0]), SharedOf(now[0]));
        Uncons(r, Refer(f), Decode(After(m.offset, now[0]), now[1..]), ReferAll(rest));
        assert f.offset == prev + 4 * NextOf(words[ahead - 1]);
        assert Chained(prev, f.offset);
        assert words == [words[0]] + tail;
        TailOf(words, [words[0]], tail, ahead, 1);
        AheadFails(f.offset, rest, ahead, After(f.offset, now[0]));
      }
    }
  }

  lemma DecodeStart(start: uint32, words: seq<uint32>)
    ensures Decode(Outside, [start] + words) == Decode(Inside(start), words)
  {
    assert ([start] + words)[1..] == words;
  }

  lemma ReferCons(g: SelectorFixup, tail: seq<SelectorFixup>)
    ensures ReferAll([g] + tail) == [Refer(g)] + ReferAll(tail)
  {
  }

  /** Decoding from after fixup `f` gets all of `rest` right. */
  predicate GoodFrom(f: SelectorFixup, rest: seq<SelectorFixup>)
  {
    Decode(After(f.offset, Entry(f, Following(f, rest))), Words(f.offset, rest)) == Some(ReferAll(rest))
  }

  /** One fixup further on: the decoder reports it and then stands after its entry, unless its offset repeats. */
  lemma OneStep(f: SelectorFixup, g: SelectorFixup, tail: seq<SelectorFixup>)
    requires f.offset % 4 == 0 && g.offset % 4 == 0 && g.offset != f.offset
    ensures GoodFrom(f, [g] + tail) <==> GoodFrom(g, tail)
  {
    hide NextOf, IndexOf, SharedOf, Entry, Words, Decode, ReferAll;
    var rest := [g] + tail;
    EntryFields(f, Following(f, rest));
    EntryFields(g, Following(g, tail));
    ReferCons(g, tail);
    WordsCons(f.offset, g, tail);
    var e, after := Entry(g, Following(g, tail)), Words(g.offset, tail);
    assert ([e] + after)[1..] == after;
    EntryDecodes(g, e, [e] + after);
    if Chained(f.offset, g.offset) {
      assert f.offset + 4 * Distance(f.offset, g.offset) == g.offset;
      assert Words(f.offset, rest) == [e] + after;
    } else {
      assert Words(f.offset, rest) == [g.offset] + ([e] + after);
      DecodeStart(g.offset, [e] + after);
    }
  }

  /** From a fixup on, decoding is right exactly when no later fixup repeats an offset. */
  lemma {:induction false} InStep(f: SelectorFixup, rest: seq<SelectorFixup>)
    requires AlignedOffsets([f] + rest)
    ensures GoodFrom(f, rest) <==> NoRepeat([f] + rest)
    decreases |rest|
  {
    hide NextOf, IndexOf, SharedOf, Entry, Decode, ReferAll;
    EntryFields(f, Following(f, rest));
    if rest == [] {
      NothingLeft();
    } else {
      var all, g, tail := [f] + rest, rest[0], rest[1..];
      assert all[0] == f && all[1] == g && forall k :: 0 <= k < |rest| ==> all[k + 1] == rest[k];
      assert [g] + tail == rest;
      RepeatCons(f, rest);
      if g.offset == f.offset {
        RepeatFails(f, rest);
      } else {
        OneStep(f, g, tail);
        InStep(g, tail);
      }
    }
  }

  lemma NothingLeft()
    ensures Decode(Outside, []) == Some(ReferAll([]))
  {
    assert ReferAll([]) == [];
  }

  lemma {:induction false} RepeatCons(f: SelectorFixup, rest: seq<SelectorFixup>)
    requires rest != []
    ensures NoRepeat([f] + rest) <==> rest[0].offset != f.offset && NoRepeat(rest)
  {
    var all := [f] + rest;
    assert all[0] == f && all[1] == rest[0];
    if NoRepeat(all) {
      forall k | 0 < k < |rest| ensures rest[k].offset != rest[k - 1].offset { assert all[k + 1] == rest[k] && all[k] == rest[k - 1]; }
    }
  }

  /** Standing at a fixup's own entry, the decoder reports it and goes on. */
  lemma EntryDecodes(g: SelectorFixup, e: uint32, words: seq<uint32>)
    requires words != [] && words[0] == e && IndexOf(e) == g.index && (SharedOf(e) <==> g.inSharedCache)
    ensures Decode(Inside(g.offset), words) == Prepend([Refer(g)], Decode(After(g.offset, e), words[1..]))
    ensures forall s :: Decode(Inside(g.offset), words) == Some([Refer(g)] + s) <==> Decode(After(g.offset, e), words[1..]) == Some(s)
  {
    DecodeEntry(g.offset, words);
    var rest := Decode(After(g.offset, e), words[1..]);
    forall s ensures Prepend([Refer(g)], rest) == Some([Refer(g)] + s) <==> rest == Some(s) {
      if Prepend([Refer(g)], rest) == Some([Refer(g)] + s) { Uncons(Refer(g), Refer(g), rest, s); }
    }
  }

  /** A repeated offset has no chain start of its own, so its entry is taken for one. */
  lemma {:induction false} RepeatFails(f: SelectorFixup, rest: seq<SelectorFixup>)
    requires rest != [] && rest[0].offset == f.offset
    ensures Decode(Outside, Words(f.offset, rest)) != Some(ReferAll(rest))
  {
    hide NextOf, IndexOf, SharedOf, Entry;
    var g, tail := rest[0], rest[1..];
    var words := Words(f.offset, rest);
    var after := Words(g.offset, tail);
    assert words == [words[0]] + after;
    if Decode(Outside, words) == Some(ReferAll(rest)) {
      assert ReferAll(rest) == [Refer(g)] + ReferAll(tail);
      assert words[1..] == after;
      assert Decode(Outside, words) == Decode(Inside(words[0]), after);
      assert after != [];
      DecodeEntry(words[0], after);
      Uncons(Reference(words[0], IndexOf(after[0]), SharedOf(after[0])), Refer(g),
             Decode(After(words[0], after[0]), after[1..]), ReferAll(tail));
      AheadFails(g.offset, tail, 1, After(g.offset, after[0]));
    }
  }

  /** Every reference is recovered exactly when the first offset lies beyond the reach of a chain from
      zero and no offset repeats the one before it. */
  lemma SelectorRoundTrip(fixups: seq<SelectorFixup>)
    requires AlignedOffsets(fixups)
    ensures (Encode(fixups).Some? && Decode(Outside, Encode(fixups).value) == Some(ReferAll(fixups)))
       <==> ((fixups != [] ==> fixups[0].offset > 508) && NoRepeat(fixups))
  {
    hide NextOf, IndexOf, SharedOf, Entry, Words, Decode, ReferAll, NoRepeat;
    if fixups == [] {
      NothingLeft();
      assert Words(0, fixups) == [] by { NoWords(0); }
      assert NoRepeat(fixups) by { NoneRepeat(); }
    } else if !Chained(0, fixups[0].offset) {
      var f, rest := fixups[0], fixups[1..];
      assert fixups == [f] + rest;
      InStep(f, rest);
      var e, after := Entry(f, Following(f, rest)), Words(f.offset, rest);
      EntryFields(f, Following(f, rest));
      WordsCons(0, f, rest);
      assert ([e] + after)[1..] == after;
      DecodeStart(f.offset, [e] + after);
      EntryDecodes(f, e, [e] + after);
      ReferCons(f, rest);
    }
  }

  lemma NoWords(prev: uint32)
    ensures Words(prev, []) == []
  {
  }

  lemma NoneRepeat()
    ensures NoRepeat([])
  {
  }
}
