/**
 The byte-vector codec of camera metadata: what is written depends only on the items and the
 capacities, and reading it back rebuilds the items in a canonical layout.
 */
module MetadataVec {
  import opened Bytes
  import opened MetadataLayout
  import opened MetadataImage
  import opened MetadataRun
  import opened MetadataStore
  import opened Wrappers

  const MAX_SUPPORTED_TAGS: nat := 1000
  const MAX_SUPPORTED_ITEMS: nat := 48000
  const MIN_VEC_SIZE: nat := 12

  // ----- what is written -----

  function ItemBytes(index: uint32, item: Item): seq<byte> {
    LE32(index) + LE32(item.tag) + LE32(item.dataType) + LE32(item.count) + item.payload
  }

  function ItemsBytes(items: seq<Item>, index: nat): seq<byte>
    requires index + |items| <= MAX_SUPPORTED_TAGS
  {
    if items == [] then [] else ItemBytes(index, items[0]) + ItemsBytes(items[1..], index + 1)
  }

  function VecBytes(itemCapacity: uint32, dataCapacity: uint32, items: seq<Item>): seq<byte>
    requires |items| <= MAX_SUPPORTED_TAGS
  {
    LE32(|items|) + LE32(itemCapacity) + LE32(dataCapacity) + ItemsBytes(items, 0)
  }

  predicate Encodable(items: seq<Item>) {
    |items| <= MAX_SUPPORTED_TAGS && forall i :: 0 <= i < |items| ==> items[i].count <= MAX_SUPPORTED_ITEMS
  }

  lemma ItemsBytesCons(items: seq<Item>, index: nat)
    requires index + |items| <= MAX_SUPPORTED_TAGS && items != []
    ensures ItemsBytes(items, index) == ItemBytes(index, items[0]) + ItemsBytes(items[1..], index + 1)
  {
  }

  lemma {:induction false} ItemsBytesSnoc(items: seq<Item>, item: Item, index: nat)
    requires index + |items| < MAX_SUPPORTED_TAGS
    ensures ItemsBytes(items + [item], index) == ItemsBytes(items, index) + ItemBytes(index + |items|, item)
  {
    hide ItemBytes;
    if items == [] {
      assert [item][1..] == [];
      assert items + [item] == [item];
    } else {
      assert (items + [item])[1..] == items[1..] + [item];
      ItemsBytesSnoc(items[1..], item, index + 1);
      ConcatAssoc(ItemBytes(index, items[0]), ItemsBytes(items[1..], index + 1), ItemBytes(index + |items|, item));
    }
  }

  /** Push the bytes of one value. */
  method WriteData(word: seq<byte>, vec: seq<byte>) returns (r: seq<byte>)
    ensures r == vec + word
  {
    r := vec;
    var j := 0;
    while j < |word|
      invariant 0 <= j <= |word| && r == vec + word[..j]
    {
      r := r + [word[j]];
      j := j + 1;
    }
  }

  function Width(dataType: uint32): nat
    requires dataType < META_NUM_TYPES
  {
    PayloadSize(dataType, 1)
  }

  /** Write the payload element by element; a rational is two 4-byte writes. */
  method WriteMetadataData(item: Item, vec: seq<byte>) returns (r: seq<byte>)
    requires item.dataType < META_NUM_TYPES && |item.payload| == PayloadSize(item.dataType, item.count)
    ensures r == vec + item.payload
  {
    r := vec;
    var i, pos, w := 0, 0, Width(item.dataType);
    while i < item.count
      invariant i <= item.count && pos == PayloadSize(item.dataType, i)
      invariant r == vec + item.payload[..pos]
    {
      if item.dataType == 6 {
        r := WriteData(item.payload[pos..pos + 4], r);
        r := WriteData(item.payload[pos + 4..pos + 8], r);
      } else {
        r := WriteData(item.payload[pos..pos + w], r);
      }
      assert item.payload[..pos + w] == item.payload[..pos] + item.payload[pos..pos + w];
      i, pos := i + 1, pos + w;
    }
    assert item.payload[..pos] == item.payload;
  }

  method WriteItem(index: uint32, item: Item, vec: seq<byte>) returns (ok: bool, r: seq<byte>)
    requires item.dataType < META_NUM_TYPES && |item.payload| == PayloadSize(item.dataType, item.count)
    ensures ok <==> item.count <= MAX_SUPPORTED_ITEMS
    ensures ok ==> r == vec + ItemBytes(index, item)
  {
    hide PayloadSize;
    r := WriteData(LE32(index), vec);
    r := WriteData(LE32(item.tag), r);
    r := WriteData(LE32(item.dataType), r);
    r := WriteData(LE32(item.count), r);
    if item.count > MAX_SUPPORTED_ITEMS {
      return false, r;
    }
    r := WriteMetadataData(item, r);
    WrittenItem(vec, index, item);
    ok := true;
  }

  method ConvertMetadataToVec(b: MetadataBuffer) returns (ok: bool, vec: seq<byte>)
    requires b.Valid()
    ensures ok <==> Encodable(b.Contents())
    ensures ok ==> vec == VecBytes(b.itemCapacity, b.dataCapacity, b.Contents())
  {
    hide Tiled, PayloadSize, ItemBytes, LE32, Items, ItemOf, Align8, EntryOk, InArena, ItemDataSize, EntrySpan;
    vec := [];
    if b.itemCount > MAX_SUPPORTED_TAGS {
      return false, vec;
    }
    if b.itemCapacity > MAX_ITEM_CAPACITY || b.dataCapacity > MAX_DATA_CAPACITY {
      return false, vec;
    }
    vec := WriteData(LE32(b.itemCount), vec);
    vec := WriteData(LE32(b.itemCapacity), vec);
    vec := WriteData(LE32(b.dataCapacity), vec);
    ghost var start, all := vec, b.Contents();
    var i: uint32 := 0;
    while i < b.itemCount
      invariant i <= b.itemCount
      invariant forall j :: 0 <= j < i ==> all[j].count <= MAX_SUPPORTED_ITEMS
      invariant vec == start + ItemsBytes(all[..i], 0)
    {
      var s, item := b.GetItem(i);
      b.ItemFacts(i);
      ok, vec := WriteItem(i, item, vec);
      if !ok {
        return;
      }
      ItemsBytesSnoc(all[..i], item, 0);
      assert all[..i + 1] == all[..i] + [item];
      i := i + 1;
    }
    assert all[..i] == all;
    ok := true;
  }

  lemma WrittenItem(before: seq<byte>, index: uint32, item: Item)
    ensures before + LE32(index) + LE32(item.tag) + LE32(item.dataType) + LE32(item.count) + item.payload
         == before + ItemBytes(index, item)
  {
  }

  // ----- what is read -----

  datatype ParsedItem = Thrown | TooMany | One(item: Item, next: nat)
  datatype ParsedItems = Failed | All(items: seq<Item>)

  /** One item at `pos`: index (ignored), tag, type, count, then as many bytes as the type says. */
  function ParseItem(v: seq<byte>, pos: nat): (r: ParsedItem)
    ensures r.One? && r.item.dataType < META_NUM_TYPES ==>
            |r.item.payload| == PayloadSize(r.item.dataType, r.item.count)
    ensures r.One? ==> pos + 16 <= r.next <= |v|
  {
    if pos + 16 > |v| then Thrown else
    var tag, dataType, count := WordAt(v, pos + 4), WordAt(v, pos + 8), WordAt(v, pos + 12);
    if count > MAX_SUPPORTED_ITEMS then TooMany else
    if dataType >= META_NUM_TYPES then One(Item(tag, dataType, count, []), pos + 16) else
    var n := PayloadSize(dataType, count);
    if pos + 16 + n > |v| then Thrown
    else One(Item(tag, dataType, count, v[pos + 16..pos + 16 + n]), pos + 16 + n)
  }

  function ParseItems(v: seq<byte>, pos: nat, n: nat): (r: ParsedItems)
    ensures r.All? ==> |r.items| == n
    decreases n
  {
    if n == 0 then All([]) else
    match ParseItem(v, pos)
    case One(item, next) =>
      (match ParseItems(v, next, n - 1)
       case All(rest) => All([item] + rest)
       case Failed => Failed)
    case _ => Failed
  }

  predicate Writable(item: Item) {
    WellSized(item.dataType, item.count, item.payload) && item.count <= MAX_SUPPORTED_ITEMS
  }

  /** The words of an item image, and where its payload starts. */
  lemma ItemBytesParts(index: uint32, item: Item)
    ensures var b := ItemBytes(index, item);
            && |b| == 16 + |item.payload|
            && b[4..8] == LE32(item.tag) && b[8..12] == LE32(item.dataType)
            && b[12..16] == LE32(item.count) && b[16..] == item.payload
  {
    hide LE32;
  }

  /** Reading an item where it was written gives the item back. */
  lemma ParseWritten(v: seq<byte>, pos: nat, index: uint32, item: Item)
    requires Writable(item)
    requires pos + |ItemBytes(index, item)| <= |v|
    requires v[pos..pos + |ItemBytes(index, item)|] == ItemBytes(index, item)
    ensures ParseItem(v, pos) == One(item, pos + |ItemBytes(index, item)|)
  {
    ItemBytesParts(index, item);
    LE32RoundTrip(item.tag);
    LE32RoundTrip(item.dataType);
    LE32RoundTrip(item.count);
    hide ItemBytes, LE32, FromLE, PayloadSize;
    var b := ItemBytes(index, item);
    var n := |b|;
    SliceSlice(v, pos, pos + n, 4, 8);
    SliceSlice(v, pos, pos + n, 8, 12);
    SliceSlice(v, pos, pos + n, 12, 16);
    SliceSlice(v, pos, pos + n, 16, n);
    assert b[16..n] == item.payload;
  }

  ghost predicate WellTyped(items: seq<Item>) {
    forall i :: 0 <= i < |items| ==> WellSized(items[i].dataType, items[i].count, items[i].payload)
  }

  lemma {:induction false} ParseAllWritten(v: seq<byte>, pos: nat, items: seq<Item>, index: nat)
    requires index + |items| <= MAX_SUPPORTED_TAGS
    requires forall i :: 0 <= i < |items| ==> Writable(items[i])
    requires pos <= |v| && v[pos..] == ItemsBytes(items, index)
    ensures ParseItems(v, pos, |items|) == All(items)
    decreases |items|
  {
    if items == [] {
    } else {
      hide PayloadSize, ParseItem, ItemBytes, LE32;
      var first, rest := ItemBytes(index, items[0]), ItemsBytes(items[1..], index + 1);
      ItemsBytesCons(items, index);
      hide ItemsBytes, Writable;
      SplitAt(v, pos, first, rest);
      ParseWritten(v, pos, index, items[0]);
      ParseAllWritten(v, pos + |first|, items[1..], index + 1);
      ParseStep(v, pos, items[0], pos + |first|, items[1..]);
      assert items == [items[0]] + items[1..];
    }
  }

  lemma ParseStep(v: seq<byte>, pos: nat, item: Item, next: nat, rest: seq<Item>)
    requires ParseItem(v, pos) == One(item, next) && ParseItems(v, next, |rest|) == All(rest)
    ensures ParseItems(v, pos, |rest| + 1) == All([item] + rest)
  {
  }

  // ----- rebuilding -----

  datatype Outcome =
    | Rejected   // too short, or a count or capacity out of range, or the vector ends early
    | Overread   // a tag's recorded type is wider than the stated one: the copy would leave the payload
    | Rebuilt

  /** The layout that adding the items in order produces: each payload right behind the last. */
  ghost predicate Canonical(es: seq<Entry>) {
    forall i :: 0 <= i < |es| && es[i].slot.Outline? ==> es[i].slot.offset == TotalSpan(es[..i])
  }

  /** Items whose tags are recorded with just the types they carry. */
  ghost predicate Recorded(table: TagTable, items: seq<Item>) {
    forall i :: 0 <= i < |items| ==> table(items[i].tag) == Some(items[i].dataType)
  }

  lemma CanonicalSnoc(es: seq<Entry>, e: Entry)
    requires Canonical(es) && (e.slot.Outline? ==> e.slot.offset == TotalSpan(es))
    ensures Canonical(es + [e])
  {
    hide EntrySpan;
    forall i | 0 <= i < |es| ensures (es + [e])[..i] == es[..i] {
    }
    assert (es + [e])[..|es|] == es;
  }

  lemma AddedCanonical(img: Image, tag: uint32, dataType: uint32, count: uint32, data: seq<byte>)
    requires dataType < META_NUM_TYPES && |data| == PayloadSize(dataType, count)
    requires img.dataCount + Span(|data|) <= |img.arena| <= MAX_DATA_CAPACITY
    requires Canonical(img.entries) && TotalSpan(img.entries) == img.dataCount
    ensures Canonical(Added(img, tag, dataType, count, data).entries)
  {
    hide Canonical, Span, PayloadSize;
    var es := Added(img, tag, dataType, count, data).entries;
    CanonicalSnoc(img.entries, es[|img.entries|]);
    assert es == img.entries + [es[|img.entries|]];
  }

  lemma {:induction false} TotalPayloadConcat(a: seq<Item>, b: seq<Item>)
    ensures TotalPayload(a + b) == TotalPayload(a) + TotalPayload(b)
  {
    hide Span;
    if a == [] {
      assert a + b == b;
    } else {
      assert (a + b)[1..] == a[1..] + b;
      TotalPayloadConcat(a[1..], b);
    }
  }

  /** Adding a read item to `n` items with `used` bytes gets past the room checks, with the recorded type. */
  predicate Reached(table: TagTable, it: Item, n: nat, used: nat, itemCapacity: nat, dataCapacity: nat) {
    && it.dataType < META_NUM_TYPES && table(it.tag).Some? && table(it.tag).value < META_NUM_TYPES
    && 0 < it.count && n < itemCapacity && used + Span(PayloadSize(table(it.tag).value, it.count)) <= dataCapacity
  }

  /** The addition then copies as many bytes as the recorded type needs, and the payload has fewer. */
  predicate Overreads(table: TagTable, it: Item, n: nat, used: nat, itemCapacity: nat, dataCapacity: nat) {
    && Reached(table, it, n, used, itemCapacity, dataCapacity)
    && PayloadSize(table(it.tag).value, it.count) > |it.payload|
  }

  /** What has been rebuilt, and whether that was cut short by a copy that would leave the payload. */
  datatype Rebuilding = Rebuilding(overread: bool, items: seq<Item>)

  /** The plain list after the read items `raw` were added to `have` one by one, skipping what cannot be. */
  function Rebuild(table: TagTable, raw: seq<Item>, have: seq<Item>, itemCapacity: nat, dataCapacity: nat): Rebuilding
    decreases |raw|
  {
    if raw == [] then Rebuilding(false, have)
    else if Overreads(table, raw[0], |have|, TotalPayload(have), itemCapacity, dataCapacity) then Rebuilding(true, have)
    else Rebuild(table, raw[1..], WithNext(table, raw[0], have, itemCapacity, dataCapacity), itemCapacity, dataCapacity)
  }

  /** An item takes the recorded type; one that cannot be added is skipped. */
  function WithNext(table: TagTable, it: Item, have: seq<Item>, itemCapacity: nat, dataCapacity: nat): seq<Item>
    requires !Overreads(table, it, |have|, TotalPayload(have), itemCapacity, dataCapacity)
  {
    if Reached(table, it, |have|, TotalPayload(have), itemCapacity, dataCapacity) then
      var dataType := table(it.tag).value;
      have + [Item(it.tag, dataType, it.count, it.payload[..PayloadSize(dataType, it.count)])]
    else have
  }

  /** Items as they were recorded are all rebuilt if they are within the capacities. */
  lemma {:induction false} RebuildWhole(table: TagTable, raw: seq<Item>, have: seq<Item>, itemCapacity: nat,
                                        dataCapacity: nat)
    requires WellTyped(raw) && Recorded(table, raw)
    requires |have| + |raw| <= itemCapacity && TotalPayload(have) + TotalPayload(raw) <= dataCapacity
    ensures Rebuild(table, raw, have, itemCapacity, dataCapacity) == Rebuilding(false, have + raw)
    decreases |raw|
  {
    hide Span, PayloadSize;
    if raw == [] {
      assert have + [] == have;
    } else {
      var it := raw[0];
      assert WellSized(it.dataType, it.count, it.payload) && table(it.tag) == Some(it.dataType);
      assert it.payload[..|it.payload|] == it.payload;
      TotalPayloadConcat(have, [it]);
      assert TotalPayload([it]) == Span(|it.payload|) + TotalPayload([]);
      RebuildWhole(table, raw[1..], have + [it], itemCapacity, dataCapacity);
      assert have + raw == (have + [it]) + raw[1..];
    }
  }

  /** Add the items one by one; an item that cannot be added is skipped. */
  method AddAll(table: TagTable, b: MetadataBuffer, raw: seq<Item>) returns (outcome: Outcome)
    requires b.Valid() && b.Contents() == [] && b.dataCapacity % 8 == 0
    requires forall i :: 0 <= i < |raw| && raw[i].dataType < META_NUM_TYPES ==>
               |raw[i].payload| == PayloadSize(raw[i].dataType, raw[i].count)
    modifies b`itemCount, b`dataCount, b.items, b.arena
    ensures b.Valid() && Canonical(b.Img().entries)
    ensures var done := Rebuild(table, raw, [], b.itemCapacity, b.dataCapacity);
            b.Contents() == done.items && outcome == if done.overread then Overread else Rebuilt
  {
    hide Tiled, PayloadSize, Span, EntrySpan, Items, Canonical, Rebuild;
    NothingCanonical(b.Img());
    var i := 0;
    assert raw[0..] == raw;
    while i < |raw|
      invariant 0 <= i <= |raw| && b.Valid() && Canonical(b.Img().entries)
      invariant Rebuild(table, raw, [], b.itemCapacity, b.dataCapacity) ==
                Rebuild(table, raw[i..], b.Contents(), b.itemCapacity, b.dataCapacity)
    {
      RebuildNext(table, raw, i, b.Contents(), b.itemCapacity, b.dataCapacity);
      ItemsSpans(b.Img());
      TiledFacts(b.Img());
      if Overreads(table, raw[i], b.itemCount, b.dataCount, b.itemCapacity, b.dataCapacity) {
        return Overread;
      }
      AddOne(table, b, raw[i]);
      i := i + 1;
    }
    RebuildEnd(table, raw, b.Contents(), b.itemCapacity, b.dataCapacity);
    outcome := Rebuilt;
  }

  /** One read item; that it cannot be added is only logged. */
  method AddOne(table: TagTable, b: MetadataBuffer, it: Item)
    requires b.Valid() && b.dataCapacity % 8 == 0 && Canonical(b.Img().entries)
    requires !Overreads(table, it, |b.Contents()|, TotalPayload(b.Contents()), b.itemCapacity, b.dataCapacity)
    requires it.dataType < META_NUM_TYPES ==> |it.payload| == PayloadSize(it.dataType, it.count)
    modifies b`itemCount, b`dataCount, b.items, b.arena
    ensures b.Valid() && Canonical(b.Img().entries)
    ensures b.Contents() == WithNext(table, it, old(b.Contents()), b.itemCapacity, b.dataCapacity)
  {
    hide Tiled, PayloadSize, Span, EntrySpan, Items, Canonical, MetadataBuffer.AddVerdict, Added;
    var data := None;
    if it.dataType < META_NUM_TYPES {
      data := Some(it.payload);
      if table(it.tag).Some? && table(it.tag).value < META_NUM_TYPES {
        var needed := PayloadSize(table(it.tag).value, it.count);
        if needed <= |it.payload| {
          data := Some(it.payload[..needed]);
        }
      }
    }
    ghost var before := b.Img();
    ItemsSpans(before);
    TiledFacts(before);
    b.AddSucceeds(table, it.tag, data, it.count);
    FitsIsSmall();
    var s := b.AddItem(table, it.tag, data, it.count);
    if s == Success {
      AddedCanonical(before, it.tag, table(it.tag).value, it.count, data.value);
    }
  }

  /** A payload whose span fits any arena is of representable size. */
  lemma FitsIsSmall()
    ensures forall p: nat :: Span(p) <= MAX_DATA_CAPACITY ==> p <= MAX_PAYLOAD
  {
  }

  lemma NothingCanonical(img: Image)
    requires Tiled(img) && Items(img) == []
    ensures Canonical(img.entries)
  {
  }

  lemma RebuildNext(table: TagTable, raw: seq<Item>, i: nat, have: seq<Item>, itemCapacity: nat, dataCapacity: nat)
    requires i < |raw|
    ensures Rebuild(table, raw[i..], have, itemCapacity, dataCapacity) ==
            if Overreads(table, raw[i], |have|, TotalPayload(have), itemCapacity, dataCapacity)
            then Rebuilding(true, have)
            else Rebuild(table, raw[i + 1..], WithNext(table, raw[i], have, itemCapacity, dataCapacity),
                         itemCapacity, dataCapacity)
  {
    hide WithNext, Overreads;
    assert raw[i..][1..] == raw[i + 1..];
  }

  lemma RebuildEnd(table: TagTable, raw: seq<Item>, have: seq<Item>, itemCapacity: nat, dataCapacity: nat)
    ensures Rebuild(table, raw[|raw|..], have, itemCapacity, dataCapacity) == Rebuilding(false, have)
  {
  }

  lemma TiledFacts(img: Image)
    requires Tiled(img)
    ensures TotalSpan(img.entries) == img.dataCount <= |img.arena| <= MAX_DATA_CAPACITY
  {
  }

  method ReadData(v: seq<byte>, index: nat) returns (ok: bool, w: uint32, next: nat)
    ensures ok <==> index + 4 <= |v|
    ensures ok ==> w == WordAt(v, index) && next == index + 4
  {
    var buf: seq<byte> := [];
    w, next := 0, index;
    while |buf| < 4
      invariant |buf| <= 4 && next == index + |buf|
      invariant index + |buf| <= |v| ==> buf == v[index..index + |buf|]
      invariant buf != [] ==> next <= |v|
      decreases 4 - |buf|
    {
      if next >= |v| {
        return false, w, next;
      }
      buf := buf + [v[next]];
      next := next + 1;
    }
    w := WordAt(buf, 0);
    assert buf[0..4] == buf;
    ok := true;
  }

  /** One item; `None` when the vector ends early or the count is out of range. */
  method ReadItem(v: seq<byte>, pos: nat) returns (r: ParsedItem)
    ensures r == ParseItem(v, pos)
  {
    hide WordAt, PayloadSize;
    var ok, skip, tag, dataType, count, next;
    ok, skip, next := ReadData(v, pos);
    if !ok {
      return Thrown;
    }
    ok, tag, next := ReadData(v, next);
    if !ok {
      return Thrown;
    }
    ok, dataType, next := ReadData(v, next);
    if !ok {
      return Thrown;
    }
    ok, count, next := ReadData(v, next);
    if !ok {
      return Thrown;
    }
    if count > MAX_SUPPORTED_ITEMS {
      return TooMany;
    }
    if dataType >= META_NUM_TYPES {
      return One(Item(tag, dataType, count, []), next);
    }
    var payload;
    ok, payload, next := ReadPayload(v, next, dataType, count);
    r := if ok then One(Item(tag, dataType, count, payload), next) else Thrown;
  }

  /** Read the payload element by element. */
  method ReadPayload(v: seq<byte>, pos: nat, dataType: uint32, count: uint32)
    returns (ok: bool, payload: seq<byte>, next: nat)
    requires dataType < META_NUM_TYPES && pos <= |v|
    ensures ok <==> pos + PayloadSize(dataType, count) <= |v|
    ensures ok ==> next == pos + PayloadSize(dataType, count) && payload == v[pos..next]
  {
    payload, next := [], pos;
    var i: uint32, w := 0, Width(dataType);
    while i < count
      invariant i <= count && |payload| == PayloadSize(dataType, i) && next == pos + |payload|
      invariant next <= |v| && payload == v[pos..next]
    {
      if next + w > |v| {
        return false, payload, next;
      }
      assert v[pos..next + w] == v[pos..next] + v[next..next + w];
      payload := payload + v[next..next + w];
      next, i := next + w, i + 1;
    }
    ok := true;
  }

  /** The item list read from the vector, or a refusal. */
  method ReadItems(v: seq<byte>, pos: nat, n: nat) returns (ok: bool, items: seq<Item>)
    ensures ok == ParseItems(v, pos, n).All?
    ensures ok ==> items == ParseItems(v, pos, n).items
    ensures ok ==> forall i :: 0 <= i < |items| && items[i].dataType < META_NUM_TYPES ==>
                     |items[i].payload| == PayloadSize(items[i].dataType, items[i].count)
  {
    hide ParseItem, PayloadSize;
    items := [];
    var index: nat, i := pos, 0;
    while i < n
      invariant 0 <= i <= n && |items| == i
      invariant forall j :: 0 <= j < |items| && items[j].dataType < META_NUM_TYPES ==>
                  |items[j].payload| == PayloadSize(items[j].dataType, items[j].count)
      invariant ParseItems(v, pos, n) == Prepend(items, ParseItems(v, index, n - i))
    {
      var one := ReadItem(v, index);
      if !one.One? {
        return false, items;
      }
      ghost var rest := ParseItems(v, one.next, n - i - 1);
      if rest.All? {
        assert (items + [one.item]) + rest.items == items + ([one.item] + rest.items);
      }
      items := items + [one.item];
      index, i := one.next, i + 1;
    }
    ok := true;
  }

  function Prepend(items: seq<Item>, rest: ParsedItems): ParsedItems {
    match rest
    case Failed => Failed
    case All(more) => All(items + more)
  }

  /** Why a vector is refused: too short, a count or capacity out of range, or an item that cannot be read. */
  predicate Refused(v: seq<byte>) {
    || |v| < MIN_VEC_SIZE
    || WordAt(v, 0) > MAX_SUPPORTED_TAGS || WordAt(v, 4) > MAX_ITEM_CAPACITY || WordAt(v, 8) > MAX_DATA_CAPACITY
    || ParseItems(v, 12, WordAt(v, 0)).Failed?
  }

  /** What any other vector holds, as far as the tag table and the stated capacities let it be rebuilt. */
  function Decoded(table: TagTable, v: seq<byte>): Rebuilding
    requires !Refused(v)
  {
    Rebuild(table, ParseItems(v, 12, WordAt(v, 0)).items, [], WordAt(v, 4), Align8(WordAt(v, 8)))
  }

  method ConvertVecToMetadata(table: TagTable, v: seq<byte>) returns (outcome: Outcome, r: CameraMetadata?)
    ensures outcome == Rejected <==> Refused(v)
    ensures r == null <==> outcome == Rejected
    ensures r != null ==> fresh(r) && r.Valid() && r.buffer != null
    ensures outcome != Rejected ==>
              && outcome == (if Decoded(table, v).overread then Overread else Rebuilt)
              && r.buffer.Contents() == Decoded(table, v).items && Canonical(r.buffer.Img().entries)
              && r.buffer.itemCapacity == WordAt(v, 4) && r.buffer.dataCapacity == Align8(WordAt(v, 8))
  {
    hide Tiled, PayloadSize, Span, EntrySpan, Align8, ParseItems, WordAt, Payload, Rebuild, Canonical, Items;
    outcome, r := Rejected, null;
    if |v| < MIN_VEC_SIZE {
      return;
    }
    var ok, tagCount, itemCapacity, dataCapacity, index;
    ok, tagCount, index := ReadData(v, 0);
    if tagCount > MAX_SUPPORTED_TAGS {
      return;
    }
    ok, itemCapacity, index := ReadData(v, index);
    if itemCapacity > MAX_ITEM_CAPACITY {
      return;
    }
    ok, dataCapacity, index := ReadData(v, index);
    if dataCapacity > MAX_DATA_CAPACITY {
      return;
    }
    var items;
    ok, items := ReadItems(v, index, tagCount);
    if !ok {
      return;
    }
    AlignWithinLimit(dataCapacity);
    r := new CameraMetadata(itemCapacity, dataCapacity);
    outcome := AddAll(table, r.buffer, items);
  }

  /** A written vector is accepted, and all its items are rebuilt if the table records them as they are. */
  lemma WrittenDecodes(table: TagTable, itemCapacity: uint32, dataCapacity: uint32, items: seq<Item>)
    requires Encodable(items) && WellTyped(items) && Recorded(table, items)
    requires |items| <= itemCapacity <= MAX_ITEM_CAPACITY && TotalPayload(items) <= dataCapacity <= MAX_DATA_CAPACITY
    ensures var v := VecBytes(itemCapacity, dataCapacity, items);
            && !Refused(v) && Decoded(table, v) == Rebuilding(false, items)
            && WordAt(v, 4) == itemCapacity && WordAt(v, 8) == dataCapacity
  {
    hide PayloadSize, Span, Rebuild, WordAt, ParseItems, VecBytes, WellTyped, Recorded;
    VecParts(itemCapacity, dataCapacity, items);
    RebuildWhole(table, items, [], itemCapacity, Align8(dataCapacity));
    assert [] + items == items;
  }

  lemma AlignWithinLimit(n: uint32)
    requires n <= MAX_DATA_CAPACITY
    ensures AlignUint32(n) == Align8(n) <= MAX_DATA_CAPACITY
  {
  }

  lemma VecParts(itemCapacity: uint32, dataCapacity: uint32, items: seq<Item>)
    requires Encodable(items) && WellTyped(items)
    ensures var v := VecBytes(itemCapacity, dataCapacity, items);
            && |v| >= 12 && WordAt(v, 0) == |items| && WordAt(v, 4) == itemCapacity && WordAt(v, 8) == dataCapacity
            && ParseItems(v, 12, |items|) == All(items)
  {
    hide LE32, FromLE, ItemsBytes, PayloadSize;
    var v := VecBytes(itemCapacity, dataCapacity, items);
    LE32RoundTrip(|items|);
    LE32RoundTrip(itemCapacity);
    LE32RoundTrip(dataCapacity);
    assert v[0..4] == LE32(|items|) && v[4..8] == LE32(itemCapacity) && v[8..12] == LE32(dataCapacity);
    assert v[12..] == ItemsBytes(items, 0);
    ParseAllWritten(v, 12, items, 0);
  }

  /**
   Encoding a buffer and decoding the bytes gives the same items and item capacity, laid out
   canonically; the only inputs refused are those over the counts the format supports.
   */
  method VecRoundTrip(table: TagTable, b: MetadataBuffer) returns (ok: bool, r: CameraMetadata?)
    requires b.Valid() && Recorded(table, b.Contents())
    ensures ok <==> Encodable(b.Contents())
    ensures ok ==> r != null && r.Valid() && r.buffer != null
    ensures ok ==> r.buffer.Contents() == b.Contents() && Canonical(r.buffer.Img().entries)
    ensures ok ==> r.buffer.itemCapacity == b.itemCapacity && r.buffer.dataCapacity == Align8(b.dataCapacity)
  {
    r := null;
    var vec, outcome;
    ok, vec := ConvertMetadataToVec(b);
    if ok {
      ContentsWellTyped(b);
      WrittenDecodes(table, b.itemCapacity, b.dataCapacity, b.Contents());
      outcome, r := ConvertVecToMetadata(table, vec);
    }
  }

  lemma ContentsWellTyped(b: MetadataBuffer)
    requires b.Valid()
    ensures WellTyped(b.Contents()) && |b.Contents()| <= b.itemCapacity
    ensures TotalPayload(b.Contents()) <= b.dataCapacity
  {
    ItemsSpans(b.Img());
    hide PayloadSize, Tiled, Span;
    forall i | 0 <= i < |b.Contents()|
      ensures WellSized(b.Contents()[i].dataType, b.Contents()[i].count, b.Contents()[i].payload)
    {
      b.ItemFacts(i);
    }
  }

  /** Buffers with equal contents and capacities encode identically, however they are laid out. */
  method EncodeBoth(a: MetadataBuffer, b: MetadataBuffer) returns (okA: bool, va: seq<byte>, okB: bool, vb: seq<byte>)
    requires a.Valid() && b.Valid() && a.Contents() == b.Contents()
    requires a.itemCapacity == b.itemCapacity && a.dataCapacity == b.dataCapacity
    ensures okA == okB && (okA ==> va == vb)
  {
    hide Tiled;
    okA, va := ConvertMetadataToVec(a);
    okB, vb := ConvertMetadataToVec(b);
  }
}
