/**
 * The perfect-hash table from class names to implementations.  Names are checked by hash, check byte
 * and finally by value; a name with one implementation holds it in place, and one with several holds
 * a placeholder that points into a shared spill array.
 */
module ClassTable {
  import opened MachineWords
  import opened Selection
  import opened Wrappers

  type CString = s: seq<uint8> | 0 !in s witness []

  const SENTINEL: uint32 := 0xFFFF_FFFF
  const MAX_IMAGE_INDEX: uint8 := 0xFF

  // ----- packed words -----------------------------------------------------------------------

  /** Where a name is: 8-bit image index, 24-bit offset. */
  function NameWord(imageIndex: uint8, offset: uint24): uint32 { imageIndex + 0x100 * offset }

  /** Where a class is: 8-bit image index, 23-bit offset, and a clear duplicate bit. */
  function ClassWord(imageIndex: uint8, offset: uint23): uint32 { imageIndex + 0x100 * offset }

  /** A run of the spill array: 8-bit count, 23-bit first index, and a set duplicate bit. */
  function Placeholder(count: uint8, index: uint23): uint32 { count + 0x100 * index + 0x8000_0000 }

  function LowByte(w: uint32): uint8 { w % 0x100 }
  function NameOffset(w: uint32): uint24 { w / 0x100 }
  function ClassOffset(w: uint32): uint23 { w / 0x100 % 0x80_0000 }
  predicate IsDuplicate(w: uint32) { w >= 0x8000_0000 }

  lemma PackedFields(low: uint8, nameOffset: uint24, classOffset: uint23)
    ensures LowByte(NameWord(low, nameOffset)) == low && NameOffset(NameWord(low, nameOffset)) == nameOffset
    ensures LowByte(ClassWord(low, classOffset)) == low && ClassOffset(ClassWord(low, classOffset)) == classOffset
    ensures !IsDuplicate(ClassWord(low, classOffset))
    ensures LowByte(Placeholder(low, classOffset)) == low && ClassOffset(Placeholder(low, classOffset)) == classOffset
    ensures IsDuplicate(Placeholder(low, classOffset))
    ensures low != MAX_IMAGE_INDEX ==> NameWord(low, nameOffset) != SENTINEL
  {
  }

  function CheckByte(key: CString): (b: uint8)
    ensures b % 32 == |key| % 32 && b / 32 == if key == [] then 0 else key[0] % 8
  {
    (if key == [] then 0 else key[0] % 8) * 32 + |key| % 32
  }

  // ----- what is seen while building ----------------------------------------------------------

  /** A class found in an image's class list; its name and data share the image index. */
  datatype SeenClass = SeenClass(name: CString, imageIndex: uint8, nameOffset: uint24, classOffset: uint23)
  {
    function NameTarget(): uint32 { NameWord(imageIndex, nameOffset) }
    function ClassTarget(): uint32 { ClassWord(imageIndex, classOffset) }
  }

  datatype Entry = Entry(name: CString, target: uint32)
  datatype Group = Group(name: CString, values: seq<uint32>)

  /** The classes seen under a name, in order: what a lookup must report. */
  function ClassesSeen(seen: seq<SeenClass>, name: CString): seq<SeenClass>
  {
    if seen == [] then [] else
    var rest := ClassesSeen(seen[..|seen| - 1], name);
    if seen[|seen| - 1].name == name then rest + [seen[|seen| - 1]] else rest
  }

  /** The name map: a name keeps the target of the first class that carries it. */
  function NameMap(seen: seq<SeenClass>): seq<Entry>
  {
    if seen == [] then [] else
    var c := seen[|seen| - 1];
    var rest := NameMap(seen[..|seen| - 1]);
    if exists k :: 0 <= k < |rest| && rest[k].name == c.name then rest else rest + [Entry(c.name, c.NameTarget())]
  }

  /** Insertion into the multimap: behind the key's values, or as a new key behind all others. */
  function Insert(groups: seq<Group>, name: CString, value: uint32): seq<Group>
  {
    if groups == [] then [Group(name, [value])]
    else if groups[0].name == name then [Group(name, groups[0].values + [value])] + groups[1..]
    else [groups[0]] + Insert(groups[1..], name, value)
  }

  function MultiMap(seen: seq<SeenClass>): seq<Group>
  {
    if seen == [] then [] else
    Insert(MultiMap(seen[..|seen| - 1]), seen[|seen| - 1].name, seen[|seen| - 1].ClassTarget())
  }

  predicate DistinctGroups(groups: seq<Group>)
  {
    forall i, j :: 0 <= i < j < |groups| ==> groups[i].name != groups[j].name
  }

  predicate Has(groups: seq<Group>, name: CString)
  {
    exists k :: 0 <= k < |groups| && groups[k].name == name
  }

  /** One group before and after a value is inserted under `name`. */
  predicate Grown(before: Group, after: Group, name: CString, value: uint32)
  {
    after == if before.name == name then Group(name, before.values + [value]) else before
  }

  lemma {:induction false} InsertEffect(groups: seq<Group>, name: CString, value: uint32)
    requires DistinctGroups(groups)
    ensures var after := Insert(groups, name, value);
            && |after| == (if Has(groups, name) then |groups| else |groups| + 1)
            && (forall k :: 0 <= k < |groups| ==> Grown(groups[k], after[k], name, value))
            && (!Has(groups, name) ==> after[|groups|] == Group(name, [value]))
  {
    if groups == [] {
    } else if groups[0].name == name {
      assert forall k :: 0 < k < |groups| ==> groups[k].name != name;
    } else {
      var rest := groups[1..];
      InsertEffect(rest, name, value);
      assert Has(groups, name) <==> Has(rest, name) by { HasTail(groups, name); }
      var after, after' := Insert(groups, name, value), Insert(rest, name, value);
      assert after == [groups[0]] + after';
      forall k | 0 <= k < |groups|
        ensures Grown(groups[k], after[k], name, value)
      {
        if k > 0 {
          assert groups[k] == rest[k - 1] && after[k] == after'[k - 1];
        }
      }
    }
  }

  lemma HasTail(groups: seq<Group>, name: CString)
    requires groups != [] && groups[0].name != name
    ensures Has(groups, name) <==> Has(groups[1..], name)
  {
    if k :| 0 <= k < |groups| && groups[k].name == name {
      assert groups[1..][k - 1].name == name;
    }
    if k :| 0 <= k < |groups[1..]| && groups[1..][k].name == name {
      assert groups[k + 1].name == name;
    }
  }

  lemma InsertDistinct(groups: seq<Group>, name: CString, value: uint32)
    requires DistinctGroups(groups)
    ensures DistinctGroups(Insert(groups, name, value))
  {
    hide Insert;
    InsertEffect(groups, name, value);
  }

  function Targets(classes: seq<SeenClass>): seq<uint32>
  {
    seq(|classes|, k requires 0 <= k < |classes| => classes[k].ClassTarget())
  }

  /** A name's entries in the two maps: all its classes, and the name target of the first. */
  predicate CollectedName(seen: seq<SeenClass>, entry: Entry, group: Group)
  {
    var classes := ClassesSeen(seen, group.name);
    && classes != []
    && group.values == Targets(classes)
    && entry == Entry(group.name, classes[0].NameTarget())
    && classes[0] in seen && classes[0].name == group.name
  }

  /** What the two maps hold after `seen`, name by name. */
  ghost predicate Collected(seen: seq<SeenClass>, strings: seq<Entry>, groups: seq<Group>)
  {
    && |strings| == |groups|
    && DistinctGroups(groups)
    && (forall c :: c in seen ==> Has(groups, c.name))
    && (forall k :: 0 <= k < |groups| ==> CollectedName(seen, strings[k], groups[k]))
  }

  lemma {:induction false} CollectedFrom(seen: seq<SeenClass>)
    ensures Collected(seen, NameMap(seen), MultiMap(seen))
  {
    hide NameMap, MultiMap, CollectedName;
    if seen == [] {
      MapsEmpty();
    } else {
      var before := seen[..|seen| - 1];
      var c := seen[|seen| - 1];
      CollectedFrom(before);
      CollectedStep(before, c);
      assert seen == before + [c];
    }
  }

  lemma ClassesSeenSnoc(seen: seq<SeenClass>, c: SeenClass, name: CString)
    ensures ClassesSeen(seen + [c], name) == ClassesSeen(seen, name) + if c.name == name then [c] else []
  {
    assert (seen + [c])[..|seen|] == seen;
  }

  lemma {:induction false} UnseenHasNone(seen: seq<SeenClass>, name: CString)
    requires forall c :: c in seen ==> c.name != name
    ensures ClassesSeen(seen, name) == []
  {
    if seen != [] {
      UnseenHasNone(seen[..|seen| - 1], name);
    }
  }

  lemma CollectedNameSnoc(seen: seq<SeenClass>, c: SeenClass, entry: Entry, group: Group)
    requires CollectedName(seen, entry, group)
    ensures CollectedName(seen + [c], entry,
                          if group.name == c.name then Group(c.name, group.values + [c.ClassTarget()]) else group)
  {
    ClassesSeenSnoc(seen, c, group.name);
    var classes := ClassesSeen(seen, group.name);
    assert Targets(classes + [c]) == Targets(classes) + [c.ClassTarget()];
  }

  lemma CollectedNameFirst(seen: seq<SeenClass>, c: SeenClass)
    requires forall d :: d in seen ==> d.name != c.name
    ensures CollectedName(seen + [c], Entry(c.name, c.NameTarget()), Group(c.name, [c.ClassTarget()]))
  {
    ClassesSeenSnoc(seen, c, c.name);
    UnseenHasNone(seen, c.name);
  }

  lemma NameMapSnoc(seen: seq<SeenClass>, c: SeenClass)
    requires |NameMap(seen)| == |MultiMap(seen)|
    requires forall k :: 0 <= k < |NameMap(seen)| ==> NameMap(seen)[k].name == MultiMap(seen)[k].name
    ensures NameMap(seen + [c]) ==
              NameMap(seen) + if Has(MultiMap(seen), c.name) then [] else [Entry(c.name, c.NameTarget())]
    ensures MultiMap(seen + [c]) == Insert(MultiMap(seen), c.name, c.ClassTarget())
  {
    assert (seen + [c])[..|seen|] == seen;
    if k :| 0 <= k < |MultiMap(seen)| && MultiMap(seen)[k].name == c.name {
      assert NameMap(seen)[k].name == c.name;
    }
  }

  lemma CollectedStep(seen: seq<SeenClass>, c: SeenClass)
    requires Collected(seen, NameMap(seen), MultiMap(seen))
    ensures Collected(seen + [c], NameMap(seen + [c]), MultiMap(seen + [c]))
  {
    hide NameMap, MultiMap, Insert;
    var strings, groups := NameMap(seen), MultiMap(seen);
    assert forall k :: 0 <= k < |strings| ==> strings[k].name == groups[k].name;
    NameMapSnoc(seen, c);
    CollectedInsert(seen, c, strings, groups);
  }

  lemma CollectedInsert(seen: seq<SeenClass>, c: SeenClass, strings: seq<Entry>, groups: seq<Group>)
    requires Collected(seen, strings, groups)
    ensures Collected(seen + [c],
                      strings + if Has(groups, c.name) then [] else [Entry(c.name, c.NameTarget())],
                      Insert(groups, c.name, c.ClassTarget()))
  {
    hide Insert, CollectedName;
    var after := Insert(groups, c.name, c.ClassTarget());
    var strings' := strings + if Has(groups, c.name) then [] else [Entry(c.name, c.NameTarget())];
    InsertEffect(groups, c.name, c.ClassTarget());
    InsertDistinct(groups, c.name, c.ClassTarget());
    forall k | 0 <= k < |after|
      ensures CollectedName(seen + [c], strings'[k], after[k])
    {
      if k < |groups| {
        CollectedNameSnoc(seen, c, strings[k], groups[k]);
      } else {
        CollectedNameFirst(seen, c);
      }
    }
    forall d | d in seen + [c]
      ensures Has(after, d.name)
    {
      if Has(groups, d.name) {
        var k :| 0 <= k < |groups| && groups[k].name == d.name;
        assert after[k].name == d.name;
      } else {
        assert after[|groups|].name == d.name;
      }
    }
  }

  // ----- the table ------------------------------------------------------------------------------

  datatype Table = Table(targets: seq<uint32>, checkBytes: seq<uint8>, classOffsets: seq<uint32>,
                         duplicates: seq<uint32>)

  /** The hash covers every key and tells the stored names apart. */
  ghost predicate PerfectFor(hash: CString -> nat, capacity: nat, strings: seq<Entry>)
  {
    && (forall key: CString :: hash(key) < capacity)
    && forall i, j :: 0 <= i < j < |strings| ==> hash(strings[i].name) != hash(strings[j].name)
  }

  /** The spill array: the values of every name that has other than one. */
  function Spilled(groups: seq<Group>): seq<uint32>
  {
    if groups == [] then [] else
    Spilled(groups[..|groups| - 1])
    + if |groups[|groups| - 1].values| == 1 then [] else groups[|groups| - 1].values
  }

  /** The fields of a placeholder have fixed widths. */
  predicate Fits(groups: seq<Group>)
  {
    && |Spilled(groups)| <= 0x80_0000
    && forall k :: 0 <= k < |groups| ==> 0 < |groups[k].values| < 0x100
  }

  lemma {:induction false} SpilledRun(groups: seq<Group>, k: nat)
    requires k < |groups|
    ensures |Spilled(groups[..k])| <= |Spilled(groups)|
    ensures |groups[k].values| != 1 ==>
              var start := |Spilled(groups[..k])|;
              && start + |groups[k].values| <= |Spilled(groups)|
              && Spilled(groups)[start..start + |groups[k].values|] == groups[k].values
  {
    var before := groups[..|groups| - 1];
    if k < |groups| - 1 {
      SpilledRun(before, k);
      assert before[..k] == groups[..k];
      var start := |Spilled(groups[..k])|;
      if |groups[k].values| != 1 {
        assert Spilled(groups)[start..start + |groups[k].values|] == Spilled(before)[start..start + |groups[k].values|];
      }
    } else {
      assert before == groups[..k];
    }
  }

  lemma SpilledNone(groups: seq<Group>)
    requires groups == []
    ensures Spilled(groups) == []
  {
  }

  /** The word stored for group `k`. */
  function Slot(groups: seq<Group>, k: nat): uint32
    requires Fits(groups) && k < |groups|
  {
    SpilledRun(groups, k);
    if |groups[k].values| == 1 then groups[k].values[0] else Placeholder(|groups[k].values|, |Spilled(groups[..k])|)
  }

  ghost predicate Unused(hash: CString -> nat, strings: seq<Entry>, h: nat)
  {
    forall k :: 0 <= k < |strings| ==> hash(strings[k].name) != h
  }

  /** Slots of stored names hold target and check byte; every other slot is empty. */
  ghost predicate StringsWritten(hash: CString -> nat, strings: seq<Entry>, targets: seq<uint32>,
                                 checkBytes: seq<uint8>)
  {
    && |targets| == |checkBytes|
    && (forall key: CString :: hash(key) < |targets|)
    && (forall k :: 0 <= k < |strings| ==>
          && targets[hash(strings[k].name)] == strings[k].target
          && checkBytes[hash(strings[k].name)] == CheckByte(strings[k].name))
    && (forall h :: 0 <= h < |targets| && Unused(hash, strings, h) ==> targets[h] == SENTINEL && checkBytes[h] == 0)
  }

  lemma StringsWrittenSnoc(hash: CString -> nat, strings: seq<Entry>, e: Entry, targets: seq<uint32>,
                           checkBytes: seq<uint8>)
    requires StringsWritten(hash, strings, targets, checkBytes)
    requires PerfectFor(hash, |targets|, strings + [e])
    ensures StringsWritten(hash, strings + [e], targets[hash(e.name) := e.target],
                           checkBytes[hash(e.name) := CheckByte(e.name)])
  {
    var all := strings + [e];
    var targets' := targets[hash(e.name) := e.target];
    var checkBytes' := checkBytes[hash(e.name) := CheckByte(e.name)];
    forall h | 0 <= h < |targets'| && Unused(hash, all, h)
      ensures targets'[h] == SENTINEL && checkBytes'[h] == 0
    {
      assert all[|strings|] == e;
      assert forall k :: 0 <= k < |strings| ==> all[k] == strings[k];
      assert Unused(hash, strings, h);
    }
    forall k | 0 <= k < |all|
      ensures targets'[hash(all[k].name)] == all[k].target && checkBytes'[hash(all[k].name)] == CheckByte(all[k].name)
    {
      if k < |strings| {
        assert all[k] == strings[k] && hash(all[k].name) != hash(all[|strings|].name);
      }
    }
  }

  ghost predicate ClassesWritten(hash: CString -> nat, groups: seq<Group>, classOffsets: seq<uint32>,
                                 duplicates: seq<uint32>)
    requires Fits(groups)
  {
    && duplicates == Spilled(groups)
    && (forall key: CString :: hash(key) < |classOffsets|)
    && forall k :: 0 <= k < |groups| ==> classOffsets[hash(groups[k].name)] == Slot(groups, k)
  }

  ghost predicate Written(hash: CString -> nat, strings: seq<Entry>, groups: seq<Group>, t: Table)
    requires Fits(groups)
  {
    && StringsWritten(hash, strings, t.targets, t.checkBytes)
    && ClassesWritten(hash, groups, t.classOffsets, t.duplicates)
    && |t.classOffsets| == |t.targets|
  }

  // ----- lookup ---------------------------------------------------------------------------------

  /** The mapped process: per hash-table image the bases of names and class data, and the strings there. */
  datatype Process = Process(nameBase: uint8 -> nat, dataBase: uint8 -> nat, stringAt: nat -> CString)

  function NameAddress(p: Process, target: uint32): nat { p.nameBase(LowByte(target)) + NameOffset(target) }

  function GetIndex(hash: CString -> nat, checkBytes: seq<uint8>, key: CString): Option<nat>
    requires hash(key) < |checkBytes|
  {
    if checkBytes[hash(key)] == CheckByte(key) then Some(hash(key)) else None
  }

  function GetPotentialTarget(hash: CString -> nat, targets: seq<uint32>, checkBytes: seq<uint8>, key: CString): uint32
    requires hash(key) < |targets| == |checkBytes|
  {
    match GetIndex(hash, checkBytes, key)
    case None => SENTINEL
    case Some(h) => targets[h]
  }

  function GetString(hash: CString -> nat, targets: seq<uint32>, checkBytes: seq<uint8>, p: Process,
                     key: CString): Option<nat>
    requires hash(key) < |targets| == |checkBytes|
  {
    var target := GetPotentialTarget(hash, targets, checkBytes, key);
    if target != SENTINEL && p.stringAt(NameAddress(p, target)) == key then Some(NameAddress(p, target)) else None
  }

  /** Every stored name can be read back where its target says, and no target is the sentinel. */
  ghost predicate Readable(p: Process, strings: seq<Entry>)
  {
    forall k :: 0 <= k < |strings| ==>
      strings[k].target != SENTINEL && p.stringAt(NameAddress(p, strings[k].target)) == strings[k].name
  }

  lemma StringLookup(hash: CString -> nat, strings: seq<Entry>, targets: seq<uint32>, checkBytes: seq<uint8>,
                     p: Process, key: CString)
    requires PerfectFor(hash, |targets|, strings) && StringsWritten(hash, strings, targets, checkBytes)
    requires Readable(p, strings)
    ensures GetString(hash, targets, checkBytes, p, key).Some? <==>
              exists k :: 0 <= k < |strings| && strings[k].name == key
    ensures forall k :: 0 <= k < |strings| && strings[k].name == key ==>
      GetString(hash, targets, checkBytes, p, key) == Some(NameAddress(p, strings[k].target))
  {
    if !Unused(hash, strings, hash(key)) {
      var k :| 0 <= k < |strings| && hash(strings[k].name) == hash(key);
      assert targets[hash(key)] == strings[k].target;
    }
  }

  /** Addresses up to and including the first at which the handler asks to stop. */
  function Delivered(addresses: seq<nat>, stop: nat -> bool): seq<nat>
  {
    if addresses == [] then []
    else if stop(addresses[0]) then [addresses[0]]
    else [addresses[0]] + Delivered(addresses[1..], stop)
  }

  /** The handler sees the addresses from the front, and misses some only behind the one at which it stops. */
  lemma {:induction false} DeliveredExactly(addresses: seq<nat>, stop: nat -> bool)
    ensures var called := Delivered(addresses, stop);
            && called <= addresses && (forall i :: 0 <= i < |called| - 1 ==> !stop(called[i]))
            && (called == addresses || (called != [] && stop(called[|called| - 1])))
  {
    if addresses != [] && !stop(addresses[0]) {
      DeliveredExactly(addresses[1..], stop);
      assert addresses == [addresses[0]] + addresses[1..];
    }
  }

  /** The handler has taken `called`, asked for more each time, and is due the addresses from `i` on. */
  predicate Due(addresses: seq<nat>, i: nat, stop: nat -> bool, called: seq<nat>)
    requires i <= |addresses|
  {
    Delivered(addresses, stop) == called + Delivered(addresses[i..], stop)
  }

  lemma DueStep(addresses: seq<nat>, i: nat, stop: nat -> bool, called: seq<nat>)
    requires i < |addresses| && Due(addresses, i, stop, called)
    ensures stop(addresses[i]) ==> Delivered(addresses, stop) == called + [addresses[i]]
    ensures !stop(addresses[i]) ==> Due(addresses, i + 1, stop, called + [addresses[i]])
  {
    assert addresses[i..][1..] == addresses[i + 1..];
  }

  lemma DueEnds(addresses: seq<nat>, stop: nat -> bool, called: seq<nat>)
    ensures Due(addresses, 0, stop, [])
    ensures Due(addresses, |addresses|, stop, called) ==> Delivered(addresses, stop) == called
  {
    assert addresses[0..] == addresses && addresses[|addresses|..] == [];
  }

  lemma DeliveredShort(address: nat, stop: nat -> bool)
    ensures Delivered([], stop) == [] && Delivered([address], stop) == [address]
  {
  }

  function Address(p: Process, c: SeenClass): nat { p.dataBase(c.imageIndex) + c.classOffset }

  function Addresses(p: Process, classes: seq<SeenClass>): seq<nat>
  {
    seq(|classes|, k requires 0 <= k < |classes| => Address(p, classes[k]))
  }

  function WordAddress(p: Process, word: uint32): nat { p.dataBase(LowByte(word)) + ClassOffset(word) }

  function WordAddresses(p: Process, words: seq<uint32>): seq<nat>
  {
    seq(|words|, k requires 0 <= k < |words| => WordAddress(p, words[k]))
  }

  /** Placeholders of slots in use point inside the spill array. */
  predicate InBounds(t: Table)
  {
    && |t.targets| == |t.checkBytes| == |t.classOffsets|
    && forall h :: 0 <= h < |t.targets| && t.targets[h] != SENTINEL && IsDuplicate(t.classOffsets[h]) ==>
      ClassOffset(t.classOffsets[h]) + LowByte(t.classOffsets[h]) <= |t.duplicates|
  }

  /** Every implementation a lookup of `key` finds.  A single one is based on the image of the name. */
  function Found(hash: CString -> nat, t: Table, p: Process, key: CString): seq<nat>
    requires hash(key) < |t.targets| && InBounds(t)
  {
    var h := hash(key);
    if t.checkBytes[h] != CheckByte(key) || t.targets[h] == SENTINEL then []
    else if p.stringAt(NameAddress(p, t.targets[h])) != key then []
    else if !IsDuplicate(t.classOffsets[h]) then [p.dataBase(LowByte(t.targets[h])) + ClassOffset(t.classOffsets[h])]
    else
      var start := ClassOffset(t.classOffsets[h]);
      WordAddresses(p, t.duplicates[start..start + LowByte(t.classOffsets[h])])
  }

  /** The builder refuses an image index of 255 and reads each name out of the image it points into. */
  ghost predicate Encodable(p: Process, seen: seq<SeenClass>)
  {
    forall c :: c in seen ==> c.imageIndex != MAX_IMAGE_INDEX && p.stringAt(NameAddress(p, c.NameTarget())) == c.name
  }

  ghost predicate TellsApart(hash: CString -> nat, seen: seq<SeenClass>)
  {
    forall c, d :: c in seen && d in seen && c.name != d.name ==> hash(c.name) != hash(d.name)
  }

  lemma ReadableWhenEncodable(seen: seq<SeenClass>, p: Process, hash: CString -> nat, capacity: nat)
    requires Encodable(p, seen) && TellsApart(hash, seen)
    requires forall key: CString :: hash(key) < capacity
    ensures Readable(p, NameMap(seen)) && PerfectFor(hash, capacity, NameMap(seen))
  {
    CollectedFrom(seen);
    var strings, groups := NameMap(seen), MultiMap(seen);
    forall k | 0 <= k < |strings|
      ensures strings[k].target != SENTINEL && p.stringAt(NameAddress(p, strings[k].target)) == strings[k].name
    {
      var c := ClassesSeen(seen, groups[k].name)[0];
      PackedFields(c.imageIndex, c.nameOffset, c.classOffset);
    }
    NamesApart(seen, hash, capacity);
  }

  lemma WrittenInBounds(hash: CString -> nat, strings: seq<Entry>, groups: seq<Group>, t: Table)
    requires Fits(groups) && |strings| == |groups|
    requires forall k :: 0 <= k < |strings| ==> strings[k].name == groups[k].name
    requires forall k :: 0 <= k < |groups| && |groups[k].values| == 1 ==> !IsDuplicate(groups[k].values[0])
    requires Written(hash, strings, groups, t)
    ensures InBounds(t)
  {
    forall h | 0 <= h < |t.targets| && t.targets[h] != SENTINEL && IsDuplicate(t.classOffsets[h])
      ensures ClassOffset(t.classOffsets[h]) + LowByte(t.classOffsets[h]) <= |t.duplicates|
    {
      assert !Unused(hash, strings, h);
      var k :| 0 <= k < |strings| && hash(strings[k].name) == h;
      assert t.classOffsets[hash(groups[k].name)] == Slot(groups, k);
      SpilledRun(groups, k);
      PackedFields(|groups[k].values|, 0, |Spilled(groups[..k])|);
    }
  }

  lemma SeenTargets(p: Process, classes: seq<SeenClass>)
    ensures WordAddresses(p, Targets(classes)) == Addresses(p, classes)
    ensures forall k :: 0 <= k < |classes| ==> !IsDuplicate(Targets(classes)[k])
  {
    forall k | 0 <= k < |classes|
      ensures WordAddresses(p, Targets(classes))[k] == Addresses(p, classes)[k] && !IsDuplicate(Targets(classes)[k])
    {
      PackedFields(classes[k].imageIndex, classes[k].nameOffset, classes[k].classOffset);
    }
  }

  lemma CollectedWordsPlain(seen: seq<SeenClass>, p: Process)
    ensures forall k :: 0 <= k < |MultiMap(seen)| && |MultiMap(seen)[k].values| == 1 ==>
              !IsDuplicate(MultiMap(seen)[k].values[0])
  {
    CollectedFrom(seen);
    forall k | 0 <= k < |MultiMap(seen)| && |MultiMap(seen)[k].values| == 1
      ensures !IsDuplicate(MultiMap(seen)[k].values[0])
    {
      SeenTargets(p, ClassesSeen(seen, MultiMap(seen)[k].name));
    }
  }

  /**
   * Looking a name up in the table written from `seen` finds exactly the classes seen under it, in
   * order, each at its own image's base; a name never seen is not found, whatever its hash and check
   * byte collide with.
   */
  lemma ClassLookup(seen: seq<SeenClass>, hash: CString -> nat, t: Table, p: Process, key: CString)
    requires Fits(MultiMap(seen)) && Written(hash, NameMap(seen), MultiMap(seen), t)
    requires Encodable(p, seen) && TellsApart(hash, seen)
    ensures InBounds(t)
    ensures Found(hash, t, p, key) == Addresses(p, ClassesSeen(seen, key))
  {
    hide Fits, Written, Collected, Encodable, TellsApart, InBounds, Found, Addresses, ClassesSeen, MultiMap, NameMap;
    var strings, groups := NameMap(seen), MultiMap(seen);
    CollectedFrom(seen);
    CollectedNames(seen, strings, groups);
    CollectedWordsPlain(seen, p);
    WrittenInBounds(hash, strings, groups, t);
    WrittenCovers(hash, strings, groups, t);
    ReadableWhenEncodable(seen, p, hash, |t.targets|);
    if k :| 0 <= k < |groups| && groups[k].name == key {
      FoundStored(seen, hash, strings, groups, t, p, k);
    } else {
      NotFound(seen, hash, strings, groups, t, p, key);
    }
  }

  /** A slot in use: what the stored word makes of the lookup. */
  lemma FoundInSlot(hash: CString -> nat, t: Table, p: Process, key: CString, target: uint32)
    requires hash(key) < |t.targets| && InBounds(t)
    requires t.checkBytes[hash(key)] == CheckByte(key) && t.targets[hash(key)] == target != SENTINEL
    requires p.stringAt(NameAddress(p, target)) == key
    ensures var word := t.classOffsets[hash(key)];
            var start := ClassOffset(word);
            && (!IsDuplicate(word) ==> Found(hash, t, p, key) == [p.dataBase(LowByte(target)) + start])
            && (IsDuplicate(word) ==>
                  start + LowByte(word) <= |t.duplicates|
                  && Found(hash, t, p, key) == WordAddresses(p, t.duplicates[start..start + LowByte(word)]))
  {
    hide LowByte, ClassOffset, NameAddress, WordAddresses, CheckByte;
  }

  lemma SlotWord(groups: seq<Group>, k: nat)
    requires Fits(groups) && k < |groups|
    ensures |groups[k].values| == 1 ==> Slot(groups, k) == groups[k].values[0]
    ensures |groups[k].values| != 1 ==>
              var start := |Spilled(groups[..k])|;
              && IsDuplicate(Slot(groups, k)) && ClassOffset(Slot(groups, k)) == start
              && LowByte(Slot(groups, k)) == |groups[k].values| && start + |groups[k].values| <= |Spilled(groups)|
              && Spilled(groups)[start..start + |groups[k].values|] == groups[k].values
  {
    SpilledRun(groups, k);
    if |groups[k].values| != 1 {
      PackedFields(|groups[k].values|, 0, |Spilled(groups[..k])|);
    }
  }

  lemma CollectedNames(seen: seq<SeenClass>, strings: seq<Entry>, groups: seq<Group>)
    requires Collected(seen, strings, groups)
    ensures |strings| == |groups| && forall k :: 0 <= k < |strings| ==> strings[k].name == groups[k].name
  {
  }

  lemma WrittenCovers(hash: CString -> nat, strings: seq<Entry>, groups: seq<Group>, t: Table)
    requires Fits(groups) && Written(hash, strings, groups, t)
    ensures |t.targets| == |t.checkBytes| && forall key: CString :: hash(key) < |t.targets|
  {
  }

  lemma NotFound(seen: seq<SeenClass>, hash: CString -> nat, strings: seq<Entry>, groups: seq<Group>, t: Table,
                 p: Process, key: CString)
    requires Fits(groups) && Written(hash, strings, groups, t) && InBounds(t)
    requires Collected(seen, strings, groups) && Readable(p, strings) && PerfectFor(hash, |t.targets|, strings)
    requires forall k :: 0 <= k < |groups| ==> groups[k].name != key
    ensures Found(hash, t, p, key) == Addresses(p, ClassesSeen(seen, key)) == []
  {
    hide Fits, Slot, Spilled, LowByte, ClassOffset, NameAddress, WordAddresses, CheckByte, IsDuplicate, NameOffset,
         ClassesWritten;
    CollectedNames(seen, strings, groups);
    StringLookup(hash, strings, t.targets, t.checkBytes, p, key);
    UnseenHasNone(seen, key) by {
      forall c | c in seen
        ensures c.name != key
      {
        assert Has(groups, c.name);
      }
    }
  }

  lemma FoundStored(seen: seq<SeenClass>, hash: CString -> nat, strings: seq<Entry>, groups: seq<Group>, t: Table,
                    p: Process, k: nat)
    requires Fits(groups) && Written(hash, strings, groups, t) && InBounds(t)
    requires Collected(seen, strings, groups) && Readable(p, strings)
    requires k < |strings|
    ensures Found(hash, t, p, strings[k].name) == Addresses(p, ClassesSeen(seen, strings[k].name))
  {
    hide Fits, Slot, InBounds, Found, Spilled, LowByte, ClassOffset, NameAddress, WordAddresses, Addresses, CheckByte,
         IsDuplicate, ClassesSeen, Targets;
    var key := strings[k].name;
    var classes := ClassesSeen(seen, key);
    assert CollectedName(seen, strings[k], groups[k]);
    FoundInSlot(hash, t, p, key, strings[k].target);
    SeenTargets(p, classes);
    SlotWord(groups, k);
    if |groups[k].values| == 1 {
      FirstTarget(p, classes);
    }
  }

  /** A name's target and its first class have the same image index. */
  lemma FirstTarget(p: Process, classes: seq<SeenClass>)
    requires |Targets(classes)| == 1
    ensures !IsDuplicate(Targets(classes)[0])
    ensures Addresses(p, classes) == [p.dataBase(LowByte(classes[0].NameTarget())) + ClassOffset(Targets(classes)[0])]
  {
    var c := classes[0];
    PackedFields(c.imageIndex, c.nameOffset, c.classOffset);
  }

  // ----- the class that is written and read in place ----------------------------------------------

  class ObjCClassOpt {
    const hash: CString -> nat
    const targets: array<uint32>
    const checkBytes: array<uint8>
    const classOffsets: array<uint32>
    const duplicates: array<uint32>
    var duplicateCount: nat

    constructor (hash: CString -> nat, capacity: nat, preCalculatedDuplicateCount: nat)
      ensures this.hash == hash && targets.Length == checkBytes.Length == classOffsets.Length == capacity
      ensures duplicates.Length == preCalculatedDuplicateCount && duplicateCount == 0
      ensures fresh(targets) && fresh(checkBytes) && fresh(classOffsets) && fresh(duplicates)
      ensures targets != classOffsets && targets != duplicates && classOffsets != duplicates
    {
      this.hash := hash;
      targets := new uint32[capacity](_ => 0);
      checkBytes := new uint8[capacity](_ => 0);
      classOffsets := new uint32[capacity](_ => 0);
      duplicates := new uint32[preCalculatedDuplicateCount](_ => 0);
      duplicateCount := 0;
    }

    ghost predicate Valid(capacity: nat)
      reads this
    {
      && targets.Length == checkBytes.Length == classOffsets.Length == capacity
      && targets != classOffsets && targets != duplicates && classOffsets != duplicates
    }

    ghost function Contents(): Table
      reads this, targets, checkBytes, classOffsets, duplicates
    {
      Table(targets[..], checkBytes[..], classOffsets[..], duplicates[..])
    }

    /** Clears the string table, then stores each name's target and check byte. */
    method WriteStrings(strings: seq<Entry>)
      requires Valid(targets.Length) && PerfectFor(hash, targets.Length, strings)
      modifies targets, checkBytes
      ensures StringsWritten(hash, strings, targets[..], checkBytes[..])
    {
      var i := 0;
      while i < targets.Length
        invariant 0 <= i <= targets.Length
        invariant forall h :: 0 <= h < i ==> targets[h] == SENTINEL
      {
        targets[i] := SENTINEL;
        i := i + 1;
      }
      i := 0;
      while i < checkBytes.Length
        invariant 0 <= i <= checkBytes.Length
        invariant forall h :: 0 <= h < i ==> checkBytes[h] == 0
        invariant forall h :: 0 <= h < targets.Length ==> targets[h] == SENTINEL
      {
        checkBytes[i] := 0;
        i := i + 1;
      }
      i := 0;
      while i < |strings|
        invariant 0 <= i <= |strings|
        invariant StringsWritten(hash, strings[..i], targets[..], checkBytes[..])
      {
        var h := hash(strings[i].name);
        ghost var was, wasChecked := targets[..], checkBytes[..];
        targets[h] := strings[i].target;
        checkBytes[h] := CheckByte(strings[i].name);
        assert strings[..i + 1] == strings[..i] + [strings[i]];
        StringsWrittenSnoc(hash, strings[..i], strings[i], was, wasChecked);
        i := i + 1;
      }
      assert strings[..i] == strings;
    }

    /** A stored key's index is its own slot. */
    ghost predicate Indexed(groups: seq<Group>)
      reads this, checkBytes
    {
      && targets.Length == checkBytes.Length == classOffsets.Length
      && (forall key: CString :: hash(key) < checkBytes.Length)
      && (forall k :: 0 <= k < |groups| ==>
            GetIndex(hash, checkBytes[..], groups[k].name) == Some(hash(groups[k].name)))
      && forall i, j :: 0 <= i < j < |groups| ==> hash(groups[i].name) != hash(groups[j].name)
    }

    /**
     * Writes the whole table.  The index found for a key is always its own slot and that slot is still
     * empty, and the spill array has room for exactly what was counted beforehand.
     */
    method Write(strings: seq<Entry>, groups: seq<Group>)
      requires Valid(targets.Length) && PerfectFor(hash, targets.Length, strings) && Fits(groups)
      requires |strings| == |groups| && forall k :: 0 <= k < |strings| ==> strings[k].name == groups[k].name
      requires duplicateCount == 0 && duplicates.Length == |Spilled(groups)|
      modifies this, targets, checkBytes, classOffsets, duplicates
      ensures Written(hash, strings, groups, Contents()) && duplicateCount == |Spilled(groups)|
    {
      hide Fits, Slot, Spilled, CheckByte;
      WriteStrings(strings);
      assert Indexed(groups) by {
        forall k | 0 <= k < |groups|
          ensures GetIndex(hash, checkBytes[..], groups[k].name) == Some(hash(groups[k].name))
        {
          assert strings[k].name == groups[k].name;
        }
      }
      WriteClasses(groups);
    }

    method WriteClasses(groups: seq<Group>)
      requires Valid(targets.Length) && Fits(groups) && Indexed(groups)
      requires duplicateCount == 0 && duplicates.Length == |Spilled(groups)|
      modifies this`duplicateCount, classOffsets, duplicates
      ensures ClassesWritten(hash, groups, classOffsets[..], duplicates[..]) && duplicateCount == |Spilled(groups)|
    {
      hide Fits, Slot, Spilled, CheckByte, GetIndex;
      var i := 0;
      while i < classOffsets.Length
        invariant 0 <= i <= classOffsets.Length
        invariant forall h :: 0 <= h < i ==> classOffsets[h] == SENTINEL
        invariant duplicateCount == 0
      {
        classOffsets[i] := SENTINEL;
        i := i + 1;
      }
      i := 0;
      assert Spilled(groups[..0]) == [] by { SpilledNone(groups[..0]); }
      while i < |groups|
        invariant 0 <= i <= |groups|
        invariant Indexed(groups)
        invariant duplicateCount == |Spilled(groups[..i])| <= duplicates.Length
        invariant duplicates[..duplicateCount] == Spilled(groups[..i])
        invariant forall k :: 0 <= k < i ==> classOffsets[hash(groups[k].name)] == Slot(groups, k)
        invariant forall k :: i <= k < |groups| ==> classOffsets[hash(groups[k].name)] == SENTINEL
      {
        var keyIndex := GetIndex(hash, checkBytes[..], groups[i].name);
        assert keyIndex == Some(hash(groups[i].name)) && classOffsets[hash(groups[i].name)] == SENTINEL;
        ghost var was := classOffsets[..];
        WriteGroup(groups, i, keyIndex.value);
        assert classOffsets[..] == was[hash(groups[i].name) := Slot(groups, i)];
        forall k | 0 <= k < |groups| && k != i
          ensures classOffsets[hash(groups[k].name)] == was[hash(groups[k].name)]
        {
          assert hash(groups[k].name) != hash(groups[i].name);
        }
        i := i + 1;
      }
      assert groups[..i] == groups;
    }

    method WriteGroup(groups: seq<Group>, i: nat, keyIndex: nat)
      requires Valid(targets.Length) && Fits(groups) && i < |groups|
      requires keyIndex < classOffsets.Length && duplicates.Length == |Spilled(groups)|
      requires duplicateCount == |Spilled(groups[..i])| <= duplicates.Length
      requires duplicates[..duplicateCount] == Spilled(groups[..i])
      modifies this`duplicateCount, classOffsets, duplicates
      ensures classOffsets[..] == old(classOffsets[..])[keyIndex := Slot(groups, i)]
      ensures duplicateCount == |Spilled(groups[..i + 1])| <= duplicates.Length
      ensures duplicates[..duplicateCount] == Spilled(groups[..i + 1])
    {
      var values := groups[i].values;
      SpilledRun(groups, i);
      assert groups[..i + 1][..i] == groups[..i];
      if |values| == 1 {
        classOffsets[keyIndex] := values[0];
        return;
      }
      var dest := duplicateCount;
      duplicateCount := duplicateCount + |values|;
      classOffsets[keyIndex] := Placeholder(|values|, dest);
      var j := 0;
      while j < |values|
        invariant 0 <= j <= |values| && duplicateCount == dest + |values| <= duplicates.Length
        invariant duplicates[..dest + j] == Spilled(groups[..i]) + values[..j]
        invariant classOffsets[..] == old(classOffsets[..])[keyIndex := Slot(groups, i)]
      {
        duplicates[dest + j] := values[j];
        assert duplicates[..dest + j + 1] == duplicates[..dest + j] + [values[j]];
        assert values[..j + 1] == values[..j] + [values[j]];
        j := j + 1;
      }
      assert values[..j] == values;
    }

    /** Calls the handler on the implementations of a name until it asks to stop. */
    method ForEachClass(p: Process, className: CString, stop: nat -> bool) returns (called: seq<nat>)
      requires hash(className) < targets.Length && InBounds(Contents())
      ensures called == Delivered(Found(hash, Contents(), p, className), stop)
    {
      hide LowByte, ClassOffset, NameAddress, CheckByte, IsDuplicate, Delivered, WordAddresses;
      ghost var t := Contents();
      DeliveredShort(0, stop);
      var index := GetIndex(hash, checkBytes[..], className);
      if index.None? { return []; }
      var target := targets[index.value];
      assert target == t.targets[hash(className)];
      if target == SENTINEL { return []; }
      if p.stringAt(NameAddress(p, target)) != className { return []; }
      var classOffset := classOffsets[index.value];
      FoundInSlot(hash, t, p, className, target);
      assert classOffset == t.classOffsets[hash(className)];
      if !IsDuplicate(classOffset) {
        var classImpl := p.dataBase(LowByte(target)) + ClassOffset(classOffset);
        DeliveredShort(classImpl, stop);
        return [classImpl];
      }
      called := ForEachDuplicate(p, ClassOffset(classOffset), LowByte(classOffset), stop);
    }

    method ForEachDuplicate(p: Process, start: nat, count: nat, stop: nat -> bool) returns (called: seq<nat>)
      requires start + count <= duplicates.Length
      ensures called == Delivered(WordAddresses(p, duplicates[start..start + count]), stop)
    {
      hide WordAddress, Delivered, Due;
      ghost var all := WordAddresses(p, duplicates[start..start + count]);
      called := [];
      DueEnds(all, stop, []);
      var i := 0;
      while i != count
        invariant 0 <= i <= count && Due(all, i, stop, called)
      {
        var classImpl := WordAddress(p, duplicates[start + i]);
        assert classImpl == all[i];
        DueStep(all, i, stop, called);
        called := called + [classImpl];
        if stop(classImpl) { return; }
        i := i + 1;
      }
      DueEnds(all, stop, called);
    }
  }

  // ----- building ------------------------------------------------------------------------------

  /** An image's classes, unless reading them failed. */
  datatype ObjcImage = ObjcImage(hasError: bool, seenClasses: seq<SeenClass>)

  /** The classes in the order they are registered: the last image first. */
  function LoadOrder(images: seq<ObjcImage>): seq<SeenClass>
  {
    if images == [] then [] else
    var rest := LoadOrder(images[..|images| - 1]);
    if images[|images| - 1].hasError then rest else images[|images| - 1].seenClasses + rest
  }

  /** Class `b` of image `a`, which was read without an error. */
  predicate ClassAt(images: seq<ObjcImage>, a: nat, b: nat)
  {
    a < |images| && !images[a].hasError && b < |images[a].seenClasses|
  }

  /** The list holds the classes at these places, images from the last to the first, and no place is missing. */
  ghost predicate LastImageFirst(images: seq<ObjcImage>, seen: seq<SeenClass>, at: seq<(nat, nat)>)
  {
    && |at| == |seen|
    && (forall i :: 0 <= i < |at| ==>
          ClassAt(images, at[i].0, at[i].1) && seen[i] == images[at[i].0].seenClasses[at[i].1])
    && (forall i, j :: 0 <= i < j < |at| ==> at[j].0 < at[i].0 || (at[i].0 == at[j].0 && at[i].1 < at[j].1))
    && (forall a: nat, b: nat :: ClassAt(images, a, b) ==> exists i :: 0 <= i < |at| && at[i] == (a, b))
  }

  function PlacesOf(a: nat, count: nat): (at: seq<(nat, nat)>)
    ensures |at| == count && forall i :: 0 <= i < count ==> at[i] == (a, i)
  {
    seq(count, i requires 0 <= i < count => (a, i))
  }

  lemma ClassKept(images: seq<ObjcImage>, last: ObjcImage, a: nat, b: nat)
    requires a < |images|
    ensures ClassAt(images + [last], a, b) <==> ClassAt(images, a, b)
    ensures (images + [last])[a] == images[a]
  {
  }

  lemma ImageBefore(images: seq<ObjcImage>, last: ObjcImage, seen: seq<SeenClass>, at: seq<(nat, nat)>)
    requires LastImageFirst(images, seen, at) && !last.hasError
    ensures LastImageFirst(images + [last], last.seenClasses + seen, PlacesOf(|images|, |last.seenClasses|) + at)
  {
    var all, seen', m := images + [last], last.seenClasses + seen, |last.seenClasses|;
    var at' := PlacesOf(|images|, m) + at;
    assert all[|images|] == last;
    forall i | 0 <= i < |at'|
      ensures ClassAt(all, at'[i].0, at'[i].1) && seen'[i] == all[at'[i].0].seenClasses[at'[i].1]
      ensures i < m ==> at'[i] == (|images|, i)
      ensures i >= m ==> at'[i].0 < |images| && at'[i] == at[i - m]
    {
      if i >= m {
        assert ClassAt(images, at[i - m].0, at[i - m].1);
        ClassKept(images, last, at[i - m].0, at[i - m].1);
      }
    }
    forall a: nat, b: nat | ClassAt(all, a, b)
      ensures exists i :: 0 <= i < |at'| && at'[i] == (a, b)
    {
      if a < |images| {
        ClassKept(images, last, a, b);
        var i :| 0 <= i < |at| && at[i] == (a, b);
        assert at'[m + i] == (a, b);
      } else {
        assert at'[b] == (a, b);
      }
    }
  }

  lemma ImageSkipped(images: seq<ObjcImage>, last: ObjcImage, seen: seq<SeenClass>, at: seq<(nat, nat)>)
    requires LastImageFirst(images, seen, at) && last.hasError
    ensures LastImageFirst(images + [last], seen, at)
  {
    forall i | 0 <= i < |at|
      ensures ClassAt(images + [last], at[i].0, at[i].1) && (images + [last])[at[i].0] == images[at[i].0]
    {
      assert ClassAt(images, at[i].0, at[i].1);
      ClassKept(images, last, at[i].0, at[i].1);
    }
    forall a: nat, b: nat | ClassAt(images + [last], a, b)
      ensures ClassAt(images, a, b)
    {
      if a < |images| { ClassKept(images, last, a, b); }
    }
  }

  /** Every class of every image that could be read is registered once: the last image first, each image in order. */
  lemma {:induction false} LoadOrderPlaces(images: seq<ObjcImage>) returns (at: seq<(nat, nat)>)
    ensures LastImageFirst(images, LoadOrder(images), at)
  {
    if images == [] {
      at := [];
    } else {
      hide LastImageFirst;
      var n := |images| - 1;
      at := LoadOrderPlaces(images[..n]);
      assert images[..n] + [images[n]] == images;
      if images[n].hasError {
        ImageSkipped(images[..n], images[n], LoadOrder(images[..n]), at);
      } else {
        ImageBefore(images[..n], images[n], LoadOrder(images[..n]), at);
        at := PlacesOf(n, |images[n].seenClasses|) + at;
      }
    }
  }

  function Named(seen: seq<SeenClass>, name: CString): (keep: seq<bool>)
    ensures |keep| == |seen| && forall k :: 0 <= k < |keep| ==> (keep[k] <==> seen[k].name == name)
  {
    seq(|seen|, k requires 0 <= k < |seen| => seen[k].name == name)
  }

  /** The classes seen under a name are all those that carry it, in the order they were seen. */
  lemma {:induction false} ClassesSeenPlaces(seen: seq<SeenClass>, name: CString) returns (at: seq<nat>)
    ensures TakenFrom(seen, ClassesSeen(seen, name), at) && Flagged(Named(seen, name), at)
  {
    if seen == [] {
      at := [];
    } else {
      hide TakenFrom, Flagged;
      var n := |seen| - 1;
      at := ClassesSeenPlaces(seen[..n], name);
      TakeOneMore(seen[..n], ClassesSeen(seen[..n], name), at, seen[n], Named(seen[..n], name));
      assert seen[..n] + [seen[n]] == seen;
      assert Named(seen[..n], name) + [seen[n].name == name] == Named(seen, name);
      if seen[n].name == name { at := at + [n]; }
    }
  }

  lemma MapsSnoc(seen: seq<SeenClass>, c: SeenClass)
    ensures MultiMap(seen + [c]) == Insert(MultiMap(seen), c.name, c.ClassTarget())
    ensures NameMap(seen + [c]) ==
              NameMap(seen) + if Has(MultiMap(seen), c.name) then [] else [Entry(c.name, c.NameTarget())]
  {
    hide NameMap, MultiMap, Insert, Has, CollectedName, DistinctGroups;
    CollectedFrom(seen);
    CollectedNames(seen, NameMap(seen), MultiMap(seen));
    NameMapSnoc(seen, c);
  }

  /** What one image adds to the two maps. */
  method CollectImage(image: ObjcImage, ghost before: seq<SeenClass>, strings: seq<Entry>, groups: seq<Group>)
    returns (strings': seq<Entry>, groups': seq<Group>)
    requires strings == NameMap(before) && groups == MultiMap(before)
    ensures strings' == NameMap(before + image.seenClasses) && groups' == MultiMap(before + image.seenClasses)
  {
    hide NameMap, MultiMap, Insert;
    strings', groups' := strings, groups;
    var i := 0;
    assert before + image.seenClasses[..0] == before;
    while i < |image.seenClasses|
      invariant 0 <= i <= |image.seenClasses|
      invariant strings' == NameMap(before + image.seenClasses[..i])
      invariant groups' == MultiMap(before + image.seenClasses[..i])
    {
      var seenClass := image.seenClasses[i];
      MapsSnoc(before + image.seenClasses[..i], seenClass);
      assert before + image.seenClasses[..i + 1] == before + image.seenClasses[..i] + [seenClass];
      if !Has(groups', seenClass.name) {
        strings' := strings' + [Entry(seenClass.name, seenClass.NameTarget())];
      }
      groups' := Insert(groups', seenClass.name, seenClass.ClassTarget());
      i := i + 1;
    }
    assert image.seenClasses[..i] == image.seenClasses;
  }

  method CountDuplicates(groups: seq<Group>) returns (duplicateCount: nat)
    ensures duplicateCount == |Spilled(groups)|
  {
    duplicateCount := 0;
    var i := 0;
    while i < |groups|
      invariant 0 <= i <= |groups|
      invariant duplicateCount == |Spilled(groups[..i])|
    {
      assert groups[..i + 1][..i] == groups[..i];
      if |groups[i].values| != 1 {
        duplicateCount := duplicateCount + |groups[i].values|;
      }
      i := i + 1;
    }
    assert groups[..i] == groups;
  }

  lemma LoadOrderSnoc(images: seq<ObjcImage>)
    requires images != []
    ensures var last := images[|images| - 1];
            var rest := LoadOrder(images[..|images| - 1]);
            LoadOrder(images) == if last.hasError then rest else last.seenClasses + rest
  {
  }

  lemma LoadOrderStep(images: seq<ObjcImage>, n: nat, done: seq<SeenClass>)
    requires n < |images| && LoadOrder(images) == done + LoadOrder(images[..n + 1])
    ensures LoadOrder(images) ==
              (if images[n].hasError then done else done + images[n].seenClasses) + LoadOrder(images[..n])
  {
    hide LoadOrder;
    LoadOrderSnoc(images[..n + 1]);
    assert images[..n + 1][..n] == images[..n];
    var rest := LoadOrder(images[..n]);
    assert !images[n].hasError ==> done + (images[n].seenClasses + rest) == done + images[n].seenClasses + rest;
  }

  lemma LoadOrderEnds(images: seq<ObjcImage>)
    ensures LoadOrder(images[..|images|]) == LoadOrder(images)
    ensures forall done: seq<SeenClass> :: done + LoadOrder(images[..0]) == done
  {
    assert images[..|images|] == images;
  }

  /** The two maps over all images, last image first. */
  method CollectImages(images: seq<ObjcImage>) returns (strings: seq<Entry>, groups: seq<Group>)
    ensures strings == NameMap(LoadOrder(images)) && groups == MultiMap(LoadOrder(images))
  {
    hide NameMap, MultiMap, LoadOrder;
    strings, groups := [], [];
    MapsEmpty();
    var n := |images|;
    ghost var done: seq<SeenClass> := [];
    LoadOrderEnds(images);
    while n > 0
      invariant 0 <= n <= |images|
      invariant LoadOrder(images) == done + LoadOrder(images[..n])
      invariant strings == NameMap(done) && groups == MultiMap(done)
    {
      n := n - 1;
      LoadOrderStep(images, n, done);
      if !images[n].hasError {
        strings, groups := CollectImage(images[n], done, strings, groups);
        done := done + images[n].seenClasses;
      }
    }
  }

  /**
   * Collects the classes of all images and writes their table; without a name there is no table.  The
   * hash is the perfect hash made for the names.
   */
  method WriteClassHashTable(images: seq<ObjcImage>, hash: CString -> nat, capacity: nat) returns (table: ObjCClassOpt?)
    requires forall key: CString :: hash(key) < capacity
    requires TellsApart(hash, LoadOrder(images)) && Fits(MultiMap(LoadOrder(images)))
    ensures table == null <==> LoadOrder(images) == []
    ensures table != null ==>
      && table.hash == hash
      && Written(hash, NameMap(LoadOrder(images)), MultiMap(LoadOrder(images)), table.Contents())
  {
    hide NameMap, MultiMap, Spilled, Fits, CollectedName, Written, TellsApart, LoadOrder, PerfectFor;
    ghost var order := LoadOrder(images);
    var strings, groups := CollectImages(images);
    CollectedFrom(order);
    CollectedNames(order, strings, groups);
    CollectedNone(order, strings, groups);
    if strings == [] { return null; }
    var duplicateCount := CountDuplicates(groups);
    NamesApart(order, hash, capacity);
    table := new ObjCClassOpt(hash, capacity, duplicateCount);
    table.Write(strings, groups);
  }

  lemma MapsEmpty()
    ensures NameMap([]) == [] && MultiMap([]) == []
  {
  }

  lemma CollectedNone(seen: seq<SeenClass>, strings: seq<Entry>, groups: seq<Group>)
    requires Collected(seen, strings, groups)
    ensures strings == [] <==> seen == []
  {
    if seen != [] {
      assert seen[0] in seen;
      assert Has(groups, seen[0].name);
    }
    assert strings != [] ==> CollectedName(seen, strings[0], groups[0]);
  }

  lemma NamesApart(seen: seq<SeenClass>, hash: CString -> nat, capacity: nat)
    requires TellsApart(hash, seen) && forall key: CString :: hash(key) < capacity
    ensures PerfectFor(hash, capacity, NameMap(seen))
  {
    hide NameMap, MultiMap;
    CollectedFrom(seen);
    var strings, groups := NameMap(seen), MultiMap(seen);
    forall i, j | 0 <= i < j < |strings|
      ensures hash(strings[i].name) != hash(strings[j].name)
    {
      assert CollectedName(seen, strings[i], groups[i]) && CollectedName(seen, strings[j], groups[j]);
      assert groups[i].name != groups[j].name;
    }
  }
}
