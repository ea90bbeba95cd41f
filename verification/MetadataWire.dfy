/** Camera metadata items byte by byte: how wide each type is, in a vector and in the arena. */
module MetadataWire {
  import opened Bytes
  import opened MetadataLayout
  import opened MetadataImage
  import opened MetadataRun
  import opened MetadataStore
  import MetadataString
  import opened MetadataVec
  import opened Wrappers

  /** Bytes per element of a byte, int32, uint32, float, int64, double and rational. */
  const WIDTHS: seq<nat> := [1, 4, 4, 4, 8, 8, 8]

  lemma WordReads(m: seq<byte>, pos: nat, v: uint32)
    requires At(m, pos, Word(v))
    ensures pos + 4 <= |m| && WordAt(m, pos) == v
  {
    WordIs(v);
    LE32RoundTrip(v);
  }

  /** Arena bytes a payload takes: none up to four bytes, else whole multiples of eight. */
  function Room(bytes: nat): nat {
    if bytes <= 4 then 0 else (bytes + 7) / 8 * 8
  }

  lemma RoomIs(t: nat, n: nat)
    requires t < 7
    ensures PayloadSize(t, n) == WIDTHS[t] * n && Span(PayloadSize(t, n)) == Room(WIDTHS[t] * n)
  {
  }

  /** What a vector of one item says of it, and of the buffer. */
  datatype Head = Head(itemCapacity: uint32, dataCapacity: uint32, index: uint32, tag: uint32, t: uint32, n: uint32)

  /** The vector of one item: how many, the capacities, then the item's index, tag, type and count and its payload. */
  function OneItem(h: Head, payload: seq<byte>): seq<byte> {
    Word(1) + (Word(h.itemCapacity) + (Word(h.dataCapacity)
    + (Word(h.index) + (Word(h.tag) + (Word(h.t) + (Word(h.n) + payload))))))
  }

  lemma OneItemWords(h: Head, payload: seq<byte>)
    ensures var v := OneItem(h, payload);
            && |v| == 28 + |payload| && v[28..] == payload
            && WordAt(v, 0) == 1 && WordAt(v, 4) == h.itemCapacity && WordAt(v, 8) == h.dataCapacity
            && WordAt(v, 16) == h.tag && WordAt(v, 20) == h.t && WordAt(v, 24) == h.n
  {
    hide Word;
    var v := OneItem(h, payload);
    var d, e, f := Word(h.tag), Word(h.t), Word(h.n);
    var c := Word(h.index) + (d + (e + (f + payload)));
    assert v[0..|v|] == v;
    AtSplit(v, 0, Word(1), Word(h.itemCapacity) + (Word(h.dataCapacity) + c));
    AtSplit(v, 4, Word(h.itemCapacity), Word(h.dataCapacity) + c);
    AtSplit(v, 8, Word(h.dataCapacity), c);
    AtSplit(v, 12, Word(h.index), d + (e + (f + payload)));
    AtSplit(v, 16, d, e + (f + payload));
    AtSplit(v, 20, e, f + payload);
    AtSplit(v, 24, f, payload);
    WordReads(v, 0, 1);
    WordReads(v, 4, h.itemCapacity);
    WordReads(v, 8, h.dataCapacity);
    WordReads(v, 16, h.tag);
    WordReads(v, 20, h.t);
    WordReads(v, 24, h.n);
    assert v[28..28 + |payload|] == v[28..];
  }

  /** Such a vector is refused exactly beyond a limit, or if its payload is short of the type's width. */
  lemma OneItemRefusedIff(h: Head, payload: seq<byte>)
    ensures Refused(OneItem(h, payload)) <==>
              || h.itemCapacity > 10000 || h.dataCapacity > 1000000 || h.n > 48000
              || (h.t < 7 && |payload| < WIDTHS[h.t] * h.n)
  {
    var v := OneItem(h, payload);
    OneItemWords(h, payload);
    hide OneItem, WordAt, PayloadSize;
    if h.t < 7 {
      RoomIs(h.t, h.n);
    }
    ParseOne(v);
  }

  lemma ParseOne(v: seq<byte>)
    requires 28 <= |v|
    ensures ParseItem(v, 12).One? ==> ParseItems(v, 12, 1) == All([ParseItem(v, 12).item])
    ensures !ParseItem(v, 12).One? ==> ParseItems(v, 12, 1) == Failed
  {
    hide ParseItem;
    var r := ParseItem(v, 12);
    if r.One? {
      assert ParseItems(v, r.next, 0) == All([]);
    }
  }

  /**
   What becomes of the one item if its tag is recorded with `kind`. Recorded with its own type it is
   rebuilt with just its bytes. Recorded with another it takes as many of the bytes as that type
   calls for, and the copy is cut short if there are not so many. An unknown type, a tag without
   one, a count of 0, or no room: the item is left out.
   */
  function OneDecoded(kind: Option<uint32>, h: Head, payload: seq<byte>): Rebuilding {
    if h.t >= 7 || kind.None? || kind.value >= 7 || h.n == 0 || h.itemCapacity == 0 then Rebuilding(false, []) else
    var size := WIDTHS[kind.value] * h.n;
    if Room(size) > (h.dataCapacity + 7) / 8 * 8 then Rebuilding(false, [])
    else if kind.value == h.t then Rebuilding(false, [Item(h.tag, h.t, h.n, payload)])
    else if size > |payload| then Rebuilding(true, [])
    else Rebuilding(false, [Item(h.tag, kind.value, h.n, payload[..size])])
  }

  lemma OneItemRebuilt(table: TagTable, h: Head, payload: seq<byte>)
    requires h.itemCapacity <= 10000 && h.dataCapacity <= 1000000 && h.n <= 48000
    requires h.t < 7 ==> |payload| == WIDTHS[h.t] * h.n
    ensures !Refused(OneItem(h, payload))
    ensures Decoded(table, OneItem(h, payload)) == OneDecoded(table(h.tag), h, payload)
  {
    var v := OneItem(h, payload);
    OneItemRefusedIff(h, payload);
    OneItemWords(h, payload);
    hide OneItem, WordAt, PayloadSize, Span, Rebuild, ParseItems, Refused;
    ParseOne(v);
    if h.t < 7 {
      RoomIs(h.t, h.n);
      assert v[28..28 + |payload|] == payload;
    }
    var it := ParseItem(v, 12).item;
    assert it == Item(h.tag, h.t, h.n, if h.t < 7 then payload else []);
    RebuildOne(table, it, h.itemCapacity, Align8(h.dataCapacity));
    if table(h.tag).Some? && table(h.tag).value < 7 {
      RoomIs(table(h.tag).value, h.n);
      assert payload[..|payload|] == payload;
    }
  }

  lemma RebuildOne(table: TagTable, it: Item, itemCapacity: nat, dataCapacity: nat)
    ensures Rebuild(table, [it], [], itemCapacity, dataCapacity) ==
            if Overreads(table, it, 0, 0, itemCapacity, dataCapacity) then Rebuilding(true, [])
            else Rebuilding(false, WithNext(table, it, [], itemCapacity, dataCapacity))
  {
    hide Overreads, WithNext;
    assert TotalPayload([]) == 0;
    assert [it][1..] == [];
  }

  /** One item is rebuilt with just its bytes, and only a payload of more than four takes up arena. */
  method ReadOneItem(table: TagTable, h: Head, payload: seq<byte>) returns (outcome: Outcome, r: CameraMetadata?)
    requires h.t < 7 && table(h.tag) == Some(h.t) && |payload| == WIDTHS[h.t] * h.n
    requires 0 < h.n <= 48000 && 0 < h.itemCapacity <= 10000 && Room(|payload|) <= h.dataCapacity <= 1000000
    ensures outcome == Rebuilt && r != null && r.Valid() && r.buffer != null
    ensures r.buffer.Contents() == [Item(h.tag, h.t, h.n, payload)]
    ensures r.buffer.dataCount == if |payload| <= 4 then 0 else (|payload| + 7) / 8 * 8
  {
    hide OneItem, Refused, Decoded, WordAt, PayloadSize, Items, Tiled, Canonical;
    OneItemRebuilt(table, h, payload);
    outcome, r := ConvertVecToMetadata(table, OneItem(h, payload));
    ItemsSpans(r.buffer.Img());
    PayloadOfOne(r.buffer.Contents());
  }

  lemma PayloadOfOne(items: seq<Item>)
    requires |items| == 1
    ensures TotalPayload(items) == Room(|items[0].payload|)
  {
    assert items[1..] == [];
  }

  // ----- the physical image -----

  /** The header of a buffer's image: version, size, then counts, capacities and starts of table and arena. */
  lemma HeaderWire(b: MetadataBuffer)
    requires b.Valid()
    ensures var table := 16 * (b.itemCapacity as nat);
            MetadataString.HeaderBytes(b.HeaderOf()) ==
            Word(b.version) + Word(32 + table + ((b.dataCapacity as nat) + 7) / 8 * 8) + Word(b.itemCount)
            + Word(b.itemCapacity) + Word(32) + Word(b.dataCount) + Word(b.dataCapacity) + Word(32 + table)
  {
    var h := b.HeaderOf();
    hide Tiled, LE32, Word;
    WordIs(h.version);
    WordIs(h.size);
    WordIs(h.itemCount);
    WordIs(h.itemCapacity);
    WordIs(h.itemsStart);
    WordIs(h.dataCount);
    WordIs(h.dataCapacity);
    WordIs(h.dataStart);
  }

  /** An entry of the table: tag, type, count, and its payload's bytes or where they start in the arena. */
  lemma EntryWire(e: Entry)
    ensures MetadataString.EntryBytes(e) ==
            Word(e.tag) + Word(e.dataType) + Word(e.count) + match e.slot
                                                             case Inline(value) => value
                                                             case Outline(offset) => Word(offset)
  {
    hide LE32, Word;
    WordIs(e.tag);
    WordIs(e.dataType);
    WordIs(e.count);
    if e.slot.Outline? {
      WordIs(e.slot.offset);
    }
  }
}
