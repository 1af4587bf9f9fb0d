/**
 * Closures are bags of typed payloads in one growable allocation.  Every payload is a whole number of
 * 32-bit words, so the allocation is modelled as words, while lengths and offsets stay in bytes.
 */
module Containers {
  import opened MachineWords
  import opened Wrappers

  type Payload = s: seq<uint32> | 4 * |s| < 0x100_0000 witness []

  const INITIAL_SIZE: nat := 1024 * 1024
  const SIZE_LIMIT: nat := 16 * 1024 * 1024
  const IMAGE_ARRAY: uint8 := 2
  const IMAGE: uint8 := 3

  datatype TypedBytes = TypedBytes(kind: uint8, payload: Payload)

  /** The word in front of a payload: 8-bit type, 24-bit payload length in bytes. */
  function Header(kind: uint8, payloadLength: uint24): uint32 { kind + 0x100 * payloadLength }
  function Kind(header: uint32): uint8 { header % 0x100 }
  function PayloadLength(header: uint32): uint24 { header / 0x100 }

  lemma HeaderFields(kind: uint8, payloadLength: uint24)
    ensures Kind(Header(kind, payloadLength)) == kind && PayloadLength(Header(kind, payloadLength)) == payloadLength
  {
  }

  function EncodeItem(item: TypedBytes): seq<uint32> { [Header(item.kind, 4 * |item.payload|)] + item.payload }

  function Encode(items: seq<TypedBytes>): seq<uint32>
  {
    if items == [] then [] else Encode(items[..|items| - 1]) + EncodeItem(items[|items| - 1])
  }

  lemma EncodeSnoc(items: seq<TypedBytes>, item: TypedBytes)
    ensures Encode(items + [item]) == Encode(items) + EncodeItem(item)
  {
    assert (items + [item])[..|items|] == items;
  }

  /** The whole container: its own header, a fixed part, and the payloads in order. */
  function Bytes(kind: uint8, fixed: seq<uint32>, items: seq<TypedBytes>): seq<uint32>
    requires 4 * |fixed| + 4 * |Encode(items)| < SIZE_LIMIT
  {
    [Header(kind, 4 * (|fixed| + |Encode(items)|))] + fixed + Encode(items)
  }

  /** These words are the container with this content, which is below the size limit. */
  ghost predicate Holds(words: seq<uint32>, kind: uint8, fixed: seq<uint32>, items: seq<TypedBytes>)
  {
    && 4 * |fixed| + 4 * |Encode(items)| < SIZE_LIMIT
    && words == Bytes(kind, fixed, items)
  }

  lemma HoldsLength(words: seq<uint32>, kind: uint8, fixed: seq<uint32>, items: seq<TypedBytes>)
    requires Holds(words, kind, fixed, items)
    ensures |words| == 1 + |fixed| + |Encode(items)| && 4 * (|words| - 1) < SIZE_LIMIT
    ensures Kind(words[0]) == kind && PayloadLength(words[0]) == 4 * (|words| - 1)
  {
    HeaderFields(kind, 4 * (|words| - 1));
  }

  /** One more payload behind a container changes only its length and its end. */
  lemma HoldsSnoc(words: seq<uint32>, kind: uint8, fixed: seq<uint32>, items: seq<TypedBytes>, item: TypedBytes)
    requires Holds(words, kind, fixed, items) && 4 * (|words| + |item.payload|) < SIZE_LIMIT
    ensures words != []
    ensures Holds((words + EncodeItem(item))[0 := Header(Kind(words[0]), 4 * (|words| + |item.payload|))],
                  kind, fixed, items + [item])
  {
    hide Encode, Header, Kind;
    HoldsLength(words, kind, fixed, items);
    EncodeSnoc(items, item);
  }

  lemma HoldsUpdate(words: seq<uint32>, kind: uint8, fixed: seq<uint32>, items: seq<TypedBytes>, i: nat, word: uint32)
    requires Holds(words, kind, fixed, items) && i < |fixed|
    ensures 1 + i < |words| && Holds(words[1 + i := word], kind, fixed[i := word], items)
  {
    hide Encode;
  }

  // ----- reading ----------------------------------------------------------------------------------

  /** Walks headers from `p` until `end`; none if a length is misaligned or runs out of the words. */
  function Walk(words: seq<uint32>, p: nat, end: nat): Option<seq<TypedBytes>>
    decreases end - p
  {
    if p >= end then Some([])
    else if p >= |words| || PayloadLength(words[p]) % 4 != 0 || Next(words[p], p) > |words| then None
    else match Walk(words, Next(words[p], p), end)
         case None => None
         case Some(rest) => Some([ItemAt(words, p)] + rest)
  }

  function Next(header: uint32, p: nat): nat { p + 1 + PayloadLength(header) / 4 }

  function ItemAt(words: seq<uint32>, p: nat): TypedBytes
    requires p < |words| && Next(words[p], p) <= |words|
  {
    TypedBytes(Kind(words[p]), words[p + 1..Next(words[p], p)])
  }

  /** A payload written at `at` reads back from there. */
  lemma ReadItem(words: seq<uint32>, at: nat, item: TypedBytes)
    requires at + |EncodeItem(item)| <= |words|
    requires words[at..at + |EncodeItem(item)|] == EncodeItem(item)
    ensures PayloadLength(words[at]) == 4 * |item.payload| && Next(words[at], at) == at + |EncodeItem(item)|
    ensures ItemAt(words, at) == item
  {
    HeaderFields(item.kind, 4 * |item.payload|);
    var part := words[at..at + |EncodeItem(item)|];
    assert words[at] == part[0];
    assert words[at + 1..at + 1 + |item.payload|] == part[1..];
  }

  lemma {:induction false} ItemPlace(items: seq<TypedBytes>, i: nat)
    requires i < |items|
    ensures Encode(items[..i + 1]) == Encode(items[..i]) + EncodeItem(items[i])
    ensures |Encode(items[..i + 1])| <= |Encode(items)|
    ensures Encode(items)[|Encode(items[..i])|..|Encode(items[..i + 1])|] == EncodeItem(items[i])
  {
    var before := items[..|items| - 1];
    EncodeSnoc(items[..i], items[i]);
    assert items[..i] + [items[i]] == items[..i + 1];
    if i < |items| - 1 {
      ItemPlace(before, i);
      assert before[..i] == items[..i] && before[..i + 1] == items[..i + 1];
      var from, to := |Encode(items[..i])|, |Encode(items[..i + 1])|;
      assert Encode(items)[from..to] == Encode(before)[from..to];
    } else {
      assert items[..i + 1] == items;
    }
  }

  /** Item `i` of a container starts right behind the fixed part and the items before it. */
  lemma ItemInContainer(kind: uint8, fixed: seq<uint32>, items: seq<TypedBytes>, i: nat)
    requires 4 * |fixed| + 4 * |Encode(items)| < SIZE_LIMIT && i < |items|
    ensures var words, at := Bytes(kind, fixed, items), 1 + |fixed| + |Encode(items[..i])|;
            && at + |EncodeItem(items[i])| <= |words|
            && at + |EncodeItem(items[i])| == 1 + |fixed| + |Encode(items[..i + 1])|
            && words[at..at + |EncodeItem(items[i])|] == EncodeItem(items[i])
  {
    hide Encode, EncodeItem;
    ItemPlace(items, i);
    var words, at := Bytes(kind, fixed, items), 1 + |fixed| + |Encode(items[..i])|;
    var from, to := |Encode(items[..i])|, |Encode(items[..i + 1])|;
    assert words[at..at + |EncodeItem(items[i])|] == Encode(items)[from..to];
  }

  lemma {:induction false} WalkFrom(kind: uint8, items: seq<TypedBytes>, i: nat)
    requires 4 * |Encode(items)| < SIZE_LIMIT && i <= |items|
    ensures var words := Bytes(kind, [], items);
            Walk(words, 1 + |Encode(items[..i])|, |words|) == Some(items[i..])
    decreases |items| - i
  {
    hide Encode, EncodeItem;
    var words := Bytes(kind, [], items);
    if i < |items| {
      ItemInContainer(kind, [], items, i);
      ReadItem(words, 1 + |Encode(items[..i])|, items[i]);
      WalkFrom(kind, items, i + 1);
      EncodedLength(items[i]);
      assert items[i..] == [items[i]] + items[i + 1..];
    } else {
      assert items[..i] == items;
    }
  }

  lemma EncodedLength(item: TypedBytes)
    ensures |EncodeItem(item)| == 1 + |item.payload|
  {
  }

  /** Iterating a container yields exactly the payloads that were appended, in order. */
  lemma ContainerRoundTrip(kind: uint8, items: seq<TypedBytes>)
    requires 4 * |Encode(items)| < SIZE_LIMIT
    ensures var words := Bytes(kind, [], items);
            && Kind(words[0]) == kind
            && Walk(words, 1, Next(words[0], 0)) == Some(items)
  {
    hide Encode, Walk, Next, Header, Kind;
    HeaderFields(kind, 4 * |Encode(items)|);
    WalkFrom(kind, items, 0);
    EncodeEnds(items);
    ContainerEnd(kind, items);
  }

  lemma EncodeEnds(items: seq<TypedBytes>)
    ensures Encode(items[..0]) == [] && items[0..] == items
    ensures Encode(items[..|items|]) == Encode(items)
  {
    assert items[..|items|] == items;
  }

  /** A walk from `start` has passed `items` and is at `p`. */
  predicate Continues(words: seq<uint32>, start: nat, end: nat, items: seq<TypedBytes>, p: nat)
  {
    match Walk(words, p, end)
    case None => Walk(words, start, end) == None
    case Some(rest) => Walk(words, start, end) == Some(items + rest)
  }

  lemma WalkStarts(words: seq<uint32>, start: nat, end: nat)
    ensures Continues(words, start, end, [], start)
  {
    hide Walk;
    assert forall rest: seq<TypedBytes> :: [] + rest == rest;
  }

  lemma WalkStep(words: seq<uint32>, start: nat, end: nat, items: seq<TypedBytes>, p: nat)
    requires Continues(words, start, end, items, p) && p < end
    ensures if p >= |words| || PayloadLength(words[p]) % 4 != 0 || Next(words[p], p) > |words| then
              Walk(words, start, end) == None
            else Next(words[p], p) > p && Continues(words, start, end, items + [ItemAt(words, p)], Next(words[p], p))
  {
    hide ItemAt;
    if p < |words| && PayloadLength(words[p]) % 4 == 0 && Next(words[p], p) <= |words| {
      var item := ItemAt(words, p);
      assert forall rest: seq<TypedBytes> :: items + ([item] + rest) == items + [item] + rest;
    }
  }

  lemma WalkEnds(words: seq<uint32>, start: nat, end: nat, items: seq<TypedBytes>, p: nat)
    requires Continues(words, start, end, items, p) && p >= end
    ensures Walk(words, start, end) == Some(items)
  {
    assert Walk(words, p, end) == Some([]);
    assert items + [] == items;
  }

  /** Calls the handler on each payload; an assertion or a payload beyond the words ends the process. */
  method ForEachAttribute(words: seq<uint32>) returns (handled: Option<seq<TypedBytes>>)
    requires words != []
    ensures handled == if PayloadLength(words[0]) % 4 != 0 then None else Walk(words, 1, Next(words[0], 0))
  {
    hide Kind, PayloadLength, Next, ItemAt, Walk, Continues;
    if PayloadLength(words[0]) % 4 != 0 { return None; }
    var end := Next(words[0], 0);
    var p, items := 1, [];
    WalkStarts(words, p, end);
    while p < end
      invariant Continues(words, 1, end, items, p)
      decreases end - p
    {
      WalkStep(words, 1, end, items, p);
      if p >= |words| || PayloadLength(words[p]) % 4 != 0 || Next(words[p], p) > |words| { return None; }
      items := items + [ItemAt(words, p)];
      p := Next(words[p], p);
    }
    WalkEnds(words, 1, end, items, p);
    return Some(items);
  }

  /** The payload of the first item of a kind. */
  method FindAttributePayload(kind: uint8, container: uint8, ghost items: seq<TypedBytes>, words: seq<uint32>)
    returns (found: Option<seq<uint32>>)
    requires 4 * |Encode(items)| < SIZE_LIMIT && words == Bytes(container, [], items)
    ensures found == None <==> forall k :: 0 <= k < |items| ==> items[k].kind != kind
    ensures found != None ==> exists k :: 0 <= k < |items| && items[k].kind == kind && found == Some(items[k].payload)
                                          && forall j :: 0 <= j < k ==> items[j].kind != kind
  {
    hide Encode, EncodeItem, Kind, PayloadLength;
    ContainerRoundTrip(container, items);
    var end := Next(words[0], 0);
    var p := 1;
    ghost var i := 0;
    EncodeEnds(items);
    ContainerEnd(container, items);
    while p < end
      invariant 0 <= i <= |items| && p == 1 + |Encode(items[..i])|
      invariant forall j :: 0 <= j < i ==> items[j].kind != kind
      invariant end == 1 + |Encode(items)| == |words|
      decreases end - p
    {
      assert i < |items|;
      ItemInContainer(container, [], items, i);
      ReadItem(words, p, items[i]);
      EncodedLength(items[i]);
      if Kind(words[p]) == kind { return Some(words[p + 1..Next(words[p], p)]); }
      p := Next(words[p], p);
      i := i + 1;
    }
    AllRead(items, i);
    return None;
  }

  lemma ContainerEnd(kind: uint8, items: seq<TypedBytes>)
    requires 4 * |Encode(items)| < SIZE_LIMIT
    ensures Next(Bytes(kind, [], items)[0], 0) == 1 + |Encode(items)|
  {
    HeaderFields(kind, 4 * |Encode(items)|);
  }

  lemma AllRead(items: seq<TypedBytes>, i: nat)
    requires i <= |items| && |Encode(items[..i])| >= |Encode(items)|
    ensures items[i..] == []
  {
    if i < |items| {
      ItemPlace(items, i);
      EncodedLength(items[i]);
    }
  }

  // ----- writing ----------------------------------------------------------------------------------

  /** Which assertion of an append ends the process, if any. */
  datatype Outcome = Appended | Misaligned | NoRoom | TooLarge

  /** Words allocated once a payload did not fit: twice as many, or enough multiples for a larger payload. */
  function Grown(size: nat, payloadSize: nat): nat
    requires size > 0
  {
    if 4 * size < payloadSize then size + size * (payloadSize / (4 * size) + 1)
    else size + size
  }

  lemma DivisionBound(x: nat, d: nat)
    requires d > 0
    ensures x < d * (x / d + 1)
  {
    assert x == d * (x / d) + x % d;
    assert d * (x / d + 1) == d * (x / d) + d;
  }

  lemma GrownRoom(size: nat, payloadSize: nat)
    requires size > 0
    ensures Grown(size, payloadSize) >= 2 * size
    ensures 4 * size != payloadSize ==> 4 * size + payloadSize < 4 * Grown(size, payloadSize)
    ensures 4 * size == payloadSize ==> Grown(size, payloadSize) == 2 * size
  {
    if 4 * size < payloadSize {
      var d := 4 * size;
      var q := payloadSize / d;
      DivisionBound(payloadSize, d);
      assert d * (q + 1) == 4 * (size * (q + 1));
      assert size * (q + 1) >= size by {
        assert size * (q + 1) == size * q + size;
      }
    }
  }

  class ContainerTypedBytesWriter {
    /** The allocation, and the number of bytes of it in use. */
    var buffer: array<uint32>
    var end: nat
    /** What has been written: the container's type, its fixed part and its payloads. */
    ghost var kind: uint8
    ghost var fixed: seq<uint32>
    ghost var items: seq<TypedBytes>
    /** Images appended to an image array. */
    var index: nat

    ghost predicate Valid()
      reads this, buffer
    {
      && 4 * buffer.Length >= INITIAL_SIZE
      && end % 4 == 0 && 4 <= end <= 4 * buffer.Length
      && Holds(buffer[..end / 4], kind, fixed, items)
    }

    constructor Container(containerType: uint8)
      ensures Valid() && fresh(buffer) && kind == containerType && fixed == [] && items == []
      ensures index == 0 && 4 * buffer.Length == INITIAL_SIZE
    {
      buffer := new uint32[INITIAL_SIZE / 4](_ => 0);
      end := 4;
      kind, fixed, items := containerType, [], [];
      index := 0;
      new;
      buffer[0] := Header(containerType, 0);
    }

    /**
     * Appends a payload.  The growth test leaves out the header, yet every write is inside the
     * allocation, because in-use size, payload and allocation are all multiples of four.  It is accepted
     * unless the payload is not whole words, the container reaches its size limit, or a buffer that is
     * full to the last byte gets a payload of exactly its own size: then doubling is one byte short.
     */
    method Append(t: uint8, payload: seq<uint32>, payloadSize: uint32) returns (outcome: Outcome)
      requires Valid() && 4 * |payload| <= payloadSize < 4 * |payload| + 4
      modifies this`buffer, this`end, this`items, buffer
      ensures outcome == Misaligned <==> payloadSize % 4 != 0
      ensures outcome == NoRoom <==> payloadSize % 4 == 0 && old(end) == 4 * old(buffer.Length) == payloadSize
      ensures outcome == TooLarge <==> payloadSize % 4 == 0 && !(old(end) == 4 * old(buffer.Length) == payloadSize) &&
                                       old(end) + payloadSize >= 0x100_0000
      ensures outcome == Appended ==>
        && Valid() && payloadSize < SIZE_LIMIT
        && items == old(items) + [TypedBytes(t, payload)] && end == old(end) + 4 + payloadSize
      ensures buffer == old(buffer) || fresh(buffer)
    {
      hide Encode, Header, Kind, Grown, Holds;
      if payloadSize % 4 != 0 { return Misaligned; }
      ghost var content := buffer[..end / 4];
      HoldsLength(content, kind, fixed, items);
      var room := Reserve(payloadSize);
      if !room { return NoRoom; }
      PutItem(end / 4, t, payload);
      end := end + 4 + payloadSize;
      if end - 4 >= SIZE_LIMIT { return TooLarge; }
      assert buffer[..end / 4] == content + EncodeItem(TypedBytes(t, payload));
      Account(TypedBytes(t, payload), content);
      return Appended;
    }

    /** Counts a payload that has been written behind `content` into the container's length. */
    method Account(item: TypedBytes, ghost content: seq<uint32>)
      requires Holds(content, kind, fixed, items) && 4 * (|content| + |item.payload|) < SIZE_LIMIT
      requires end % 4 == 0 && 4 <= end <= 4 * buffer.Length && end == 4 * (|content| + 1 + |item.payload|)
      requires buffer[..end / 4] == content + EncodeItem(item)
      modifies this`items, buffer
      ensures items == old(items) + [item] && Holds(buffer[..end / 4], kind, fixed, items)
    {
      hide Encode, Header, Kind, Holds, EncodeItem;
      HoldsLength(content, kind, fixed, items);
      HoldsSnoc(content, kind, fixed, items, item);
      ghost var written := buffer[..end / 4];
      assert buffer[0] == written[0] == content[0];
      buffer[0] := Header(Kind(buffer[0]), end - 4);
      assert buffer[..end / 4] == written[0 := buffer[0]];
      items := items + [item];
    }

    /** Grows the buffer if the payload would not fit; says whether it fits now. */
    method Reserve(payloadSize: nat) returns (room: bool)
      requires 4 <= end <= 4 * buffer.Length
      modifies this`buffer
      ensures room <==> end + payloadSize < 4 * buffer.Length
      ensures room <==> !(end == 4 * old(buffer.Length) == payloadSize)
      ensures buffer == old(buffer) || fresh(buffer)
      ensures buffer.Length >= old(buffer.Length) && buffer[..end / 4] == old(buffer[..end / 4])
    {
      hide Grown;
      if end + payloadSize >= 4 * buffer.Length {
        GrownRoom(buffer.Length, payloadSize);
        Grow(Grown(buffer.Length, payloadSize));
      }
      room := end + payloadSize < 4 * buffer.Length;
    }

    /** Writes a header, whose length field drops what exceeds 24 bits, and a payload at a word index. */
    method PutItem(at: nat, t: uint8, payload: seq<uint32>)
      requires at + 1 + |payload| <= buffer.Length
      modifies buffer
      ensures buffer[..at + 1 + |payload|] == old(buffer[..at]) + [Header(t, 4 * |payload| % 0x100_0000)] + payload
    {
      hide Header;
      buffer[at] := Header(t, 4 * |payload| % 0x100_0000);
      assert buffer[..at + 1] == old(buffer[..at]) + [Header(t, 4 * |payload| % 0x100_0000)];
      CopyWords(at + 1, payload);
      assert buffer[..at + 1 + |payload|] == buffer[..at + 1] + payload;
    }

    /** Moves what is in use to a larger allocation. */
    method Grow(size: nat)
      requires 4 <= end <= 4 * buffer.Length && size >= buffer.Length
      modifies this`buffer
      ensures fresh(buffer) && buffer.Length == size && buffer[..end / 4] == old(buffer[..end / 4])
    {
      var larger := new uint32[size](_ => 0);
      var i := 0;
      while i < end / 4
        invariant 0 <= i <= end / 4 && buffer == old(buffer)
        invariant buffer[..end / 4] == old(buffer[..end / 4]) && larger.Length == size
        invariant larger[..i] == buffer[..i]
      {
        larger[i] := buffer[i];
        i := i + 1;
      }
      buffer := larger;
    }

    method CopyWords(at: nat, payload: seq<uint32>)
      requires at + |payload| <= buffer.Length
      modifies buffer
      ensures buffer[..at] == old(buffer[..at]) && buffer[at..at + |payload|] == payload
    {
      var i := 0;
      while i < |payload|
        invariant 0 <= i <= |payload|
        invariant buffer[..at] == old(buffer[..at]) && buffer[at..at + i] == payload[..i]
      {
        buffer[at + i] := payload[i];
        assert buffer[at..at + i + 1] == buffer[at..at + i] + [payload[i]];
        i := i + 1;
      }
    }

    // ----- image arrays -----------------------------------------------------------------------------

    /** An image array with room for `count` offsets, of which those of the images so far are filled in. */
    ghost predicate ValidImageArray(first: uint32, count: uint31, hasRoots: bool)
      reads this, buffer
    {
      && Valid() && kind == IMAGE_ARRAY
      && index == |items| <= count && 4 * (2 + count + |Encode(items)|) < SIZE_LIMIT
      && fixed == FixedPart(first, count, hasRoots, items)
      && forall i :: 0 <= i < |items| ==> items[i].kind == IMAGE
    }

    constructor ImageArray(startImageNum: uint32, count: uint31, hasRoots: bool)
      requires 12 + 4 * count <= INITIAL_SIZE
      ensures ValidImageArray(startImageNum, count, hasRoots) && fresh(buffer) && items == []
    {
      buffer := new uint32[INITIAL_SIZE / 4](_ => 0);
      end := 4 + 8 + 4 * count;
      kind, items := IMAGE_ARRAY, [];
      fixed := FixedPart(startImageNum, count, hasRoots, []);
      index := 0;
      new;
      buffer[0] := Header(IMAGE_ARRAY, 8 + 4 * count);
      buffer[1] := startImageNum;
      buffer[2] := CountWord(count, hasRoots);
      FixedStart(first := startImageNum, count := count, hasRoots := hasRoots, words := buffer[..end / 4]);
    }

    /** Records where the image will be, then appends it. */
    method AppendImage(first: uint32, count: uint31, hasRoots: bool, payload: seq<uint32>) returns (outcome: Outcome)
      requires ValidImageArray(first, count, hasRoots) && index < count && 4 * |payload| < 0x1_0000_0000
      modifies this, buffer
      ensures outcome == Appended ==>
        && ValidImageArray(first, count, hasRoots) && 4 * |payload| < SIZE_LIMIT
        && items == old(items) + [TypedBytes(3, payload)]
      ensures outcome == NoRoom <==> old(end) == 4 * old(buffer.Length) == 4 * |payload|
      ensures outcome == TooLarge <==>
        !(old(end) == 4 * old(buffer.Length) == 4 * |payload|) && old(end) + 4 * |payload| >= SIZE_LIMIT
      ensures buffer == old(buffer) || fresh(buffer)
    {
      hide Encode, Holds, FixedPart, PayloadLength;
      var payloadLength: uint32 := PayloadLength(buffer[0]);
      ghost var content := buffer[..end / 4];
      HoldsLength(content, kind, fixed, items);
      FixedLength(first, count, hasRoots, items);
      assert payloadLength == 4 * (2 + count + |Encode(items)|) by { assert content[0] == buffer[0]; }
      HoldsUpdate(content, kind, fixed, items, 2 + index, payloadLength);
      buffer[3 + index] := payloadLength;
      fixed := fixed[2 + index := payloadLength];
      assert buffer[..end / 4] == content[3 + index := payloadLength];
      index := index + 1;
      outcome := Append(IMAGE, payload, 4 * |payload|);
      if outcome == Appended {
        HoldsLength(buffer[..end / 4], kind, fixed, items);
        FixedSnoc(first, count, hasRoots, old(items), TypedBytes(IMAGE, payload));
      }
    }
  }

  /** 31 bits of image count and a flag. */
  function CountWord(count: uint31, hasRoots: bool): uint32 { count + if hasRoots then 0x8000_0000 else 0 }

  /** The offset recorded for image `i`, from the start of the array's payload. */
  function ImageOffset(count: uint31, items: seq<TypedBytes>, i: nat): nat
    requires i <= |items|
  {
    4 * (2 + count + |Encode(items[..i])|)
  }

  function FixedPart(first: uint32, count: uint31, hasRoots: bool, items: seq<TypedBytes>): seq<uint32>
    requires 4 * (2 + count + |Encode(items)|) < SIZE_LIMIT
  {
    [first, CountWord(count, hasRoots)]
    + seq(count, i requires 0 <= i < count => RecordedOffset(count, items, i))
  }

  /** Offsets of images not yet appended are still zero. */
  function RecordedOffset(count: uint31, items: seq<TypedBytes>, i: nat): uint32
    requires 4 * (2 + count + |Encode(items)|) < SIZE_LIMIT
  {
    if i < |items| then
      ItemPlace(items, i);
      ImageOffset(count, items, i)
    else 0
  }

  lemma FixedLength(first: uint32, count: uint31, hasRoots: bool, items: seq<TypedBytes>)
    requires 4 * (2 + count + |Encode(items)|) < SIZE_LIMIT
    ensures |FixedPart(first, count, hasRoots, items)| == 2 + count
  {
  }

  lemma FixedStart(first: uint32, count: uint31, hasRoots: bool, words: seq<uint32>)
    requires 8 + 4 * count < SIZE_LIMIT && |words| == 3 + count
    requires words[0] == Header(IMAGE_ARRAY, 8 + 4 * count)
    requires words[1] == first && words[2] == CountWord(count, hasRoots)
    requires forall i :: 3 <= i < |words| ==> words[i] == 0
    ensures Encode([]) == [] && Holds(words, IMAGE_ARRAY, FixedPart(first, count, hasRoots, []), [])
  {
    hide Header, CountWord;
    assert words == Bytes(IMAGE_ARRAY, FixedPart(first, count, hasRoots, []), []);
  }

  lemma FixedSnoc(first: uint32, count: uint31, hasRoots: bool, items: seq<TypedBytes>, image: TypedBytes)
    requires |items| < count && 4 * (2 + count + |Encode(items + [image])|) < SIZE_LIMIT
    ensures |Encode(items)| <= |Encode(items + [image])|
    ensures FixedPart(first, count, hasRoots, items + [image]) ==
              FixedPart(first, count, hasRoots, items)[2 + |items| := 4 * (2 + count + |Encode(items)|)]
  {
    hide Encode;
    EncodeSnoc(items, image);
    var all := items + [image];
    assert forall i :: 0 <= i <= |items| ==> all[..i] == items[..i];
    assert items[..|items|] == items;
  }

  /** The image at a byte offset into the payload of the array. */
  function ImageAt(words: seq<uint32>, offset: nat): TypedBytes
    requires 1 + offset / 4 < |words| && Next(words[1 + offset / 4], 1 + offset / 4) <= |words|
  {
    ItemAt(words, 1 + offset / 4)
  }

  /** Every recorded offset leads to its image. */
  lemma ImageRecorded(first: uint32, count: uint31, hasRoots: bool, images: seq<TypedBytes>, i: nat)
    requires 4 * (2 + count + |Encode(images)|) < SIZE_LIMIT && i < |images| == count
    ensures var words := Bytes(IMAGE_ARRAY, FixedPart(first, count, hasRoots, images), images);
            var offset := words[3 + i];
            && words[1] == first && words[2] == CountWord(count, hasRoots)
            && 1 + offset / 4 < |words| && Next(words[1 + offset / 4], 1 + offset / 4) <= |words|
            && ImageAt(words, offset) == images[i]
  {
    hide Encode, EncodeItem, Next, ItemAt, Header;
    var fixed := FixedPart(first, count, hasRoots, images);
    ItemInContainer(IMAGE_ARRAY, fixed, images, i);
    var words := Bytes(IMAGE_ARRAY, fixed, images);
    var at := 1 + |fixed| + |Encode(images[..i])|;
    assert words[3 + i] == fixed[2 + i] == ImageOffset(count, images, i) == 4 * (at - 1);
    EncodedLength(images[i]);
    ReadItem(words, at, images[i]);
  }

  /**
   * Looks an image up by number.  Without roots the i-th image appended has the i-th number from the
   * first; with roots the images are searched for the one that carries the number.
   */
  method ImageForNum(words: seq<uint32>, num: uint32, numOf: seq<uint32> -> uint32, ghost first: uint32,
                     ghost count: uint31, ghost hasRoots: bool, ghost images: seq<TypedBytes>)
    returns (found: Option<TypedBytes>)
    requires 4 * (2 + count + |Encode(images)|) < SIZE_LIMIT && |images| == count
    requires words == Bytes(IMAGE_ARRAY, FixedPart(first, count, hasRoots, images), images)
    ensures !hasRoots ==> found == if first <= num < first + count then Some(images[num - first]) else None
    ensures hasRoots ==>
      match found
      case None => forall i :: 0 <= i < count ==> numOf(images[i].payload) != num
      case Some(image) =>
        exists i :: 0 <= i < count && images[i] == image && numOf(images[i].payload) == num &&
                    forall j :: 0 <= j < i ==> numOf(images[j].payload) != num
  {
    hide Encode, EncodeItem, Next, ItemAt, Header, FixedPart, ImageAt;
    FixedWords(first, count, hasRoots, images);
    var imageCount := words[2] % 0x8000_0000;
    if words[2] >= 0x8000_0000 {
      var i := 0;
      while i < imageCount
        invariant 0 <= i <= imageCount == count
        invariant forall j :: 0 <= j < i ==> numOf(images[j].payload) != num
      {
        ImageRecorded(first, count, hasRoots, images, i);
        var image := ImageAt(words, words[3 + i]);
        if numOf(image.payload) == num { return Some(image); }
        i := i + 1;
      }
      return None;
    }
    if num < words[1] { return None; }
    var index := num - words[1];
    if index >= imageCount { return None; }
    ImageRecorded(first, count, hasRoots, images, index);
    return Some(ImageAt(words, words[3 + index]));
  }

  lemma FixedWords(first: uint32, count: uint31, hasRoots: bool, images: seq<TypedBytes>)
    requires 4 * (2 + count + |Encode(images)|) < SIZE_LIMIT
    ensures var words := Bytes(IMAGE_ARRAY, FixedPart(first, count, hasRoots, images), images);
            && |words| >= 3 + count && words[1] == first && words[2] == CountWord(count, hasRoots)
  {
  }
}
