/**
 The camera metadata buffer: header fields, item table and byte arena, changed in place, and
 the owning object that grows it by copying.
 */
module MetadataStore {
  import opened Bytes
  import opened MetadataLayout
  import opened MetadataImage
  import opened Wrappers

  datatype Status = Success | Failure | InvalidParam | ItemNotFound | ItemCapExceed | DataCapExceed

  /** The type recorded for each tag, if any. */
  type TagTable = uint32 -> Option<uint32>

  const HEADER_SIZE: nat := 32
  const ENTRY_SIZE: nat := 16
  const CURRENT_VERSION: uint32 := 1

  /** Header, item table and arena, each region aligned, the whole padded to 8. */
  function MemoryRequired(itemCapacity: nat, dataCapacity: nat): nat {
    Align8(Align8(HEADER_SIZE + ENTRY_SIZE * itemCapacity) + dataCapacity)
  }

  /** Header and table are aligned as they are, so that the padding stands behind the arena. */
  lemma Regions(itemCapacity: nat, dataCapacity: nat)
    ensures Align8(HEADER_SIZE + ENTRY_SIZE * itemCapacity) == HEADER_SIZE + ENTRY_SIZE * itemCapacity
    ensures MemoryRequired(itemCapacity, dataCapacity) == HEADER_SIZE + ENTRY_SIZE * itemCapacity + Align8(dataCapacity)
  {
    var a, b := HEADER_SIZE + ENTRY_SIZE * itemCapacity, Align8(dataCapacity);
    hide Align8;
    assert a == 8 * (4 + 2 * itemCapacity);
    AlignedDifference(a, b);
    AlignUnique(a, a);
    AlignUnique(a + dataCapacity, a + b);
  }

  lemma AlignUnique(n: nat, r: nat)
    requires r % 8 == 0 && n <= r < n + 8
    ensures Align8(n) == r
  {
    hide Align8;
    AlignedDifference(Align8(n), r);
  }

  /** The 32-bit size result as computed, wrap-around included; negative for an unknown type. */
  function ItemDataSize(dataType: uint32, count: nat): (r: int)
    ensures dataType < META_NUM_TYPES && PayloadSize(dataType, count) <= MAX_PAYLOAD
            ==> r == Span(PayloadSize(dataType, count))
    ensures dataType >= META_NUM_TYPES <==> r == -1
    ensures -0x8000_0000 <= r < 0x8000_0000
  {
    if dataType >= META_NUM_TYPES then -1 else WrappedSpan(PayloadSize(dataType, count))
  }

  /** The arena bytes for a payload, computed in 32 bits. */
  function WrappedSpan(p: nat): (r: int)
    ensures r % 8 == 0 && -0x8000_0000 <= r < 0x8000_0000
    ensures p <= MAX_PAYLOAD ==> r == Span(p)
  {
    if p <= 4 then 0 else
    AlignWraps(p);
    var raw := Align8(p % 0x1_0000_0000) % 0x1_0000_0000;
    if raw < 0x8000_0000 then raw else raw - 0x1_0000_0000
  }

  lemma AlignWraps(p: nat)
    ensures var raw := Align8(p % 0x1_0000_0000) % 0x1_0000_0000;
            raw % 8 == 0 && (p <= MAX_PAYLOAD ==> raw == Align8(p) < 0x8000_0000)
  {
    hide Align8;
    var x := p % 0x1_0000_0000;
    var r := Align8(x);
    if r >= 0x1_0000_0000 {
      assert r == 0x1_0000_0000;
    }
  }

  function AsUint32(x: int): uint32 {
    x % 0x1_0000_0000
  }

  /** Entries without holes, as they would read after the fields of an unused slot are cleared. */
  function BlankEntry(): Entry {
    Entry(0, 0, 0, Inline([0, 0, 0, 0]))
  }

  datatype Header = Header(version: uint32, size: uint32, itemCount: uint32, itemCapacity: uint32,
                           itemsStart: uint32, dataCount: uint32, dataCapacity: uint32, dataStart: uint32)

  /** The first item with a tag. */
  ghost predicate FirstWith(items: seq<Item>, tag: uint32, i: nat) {
    i < |items| && items[i].tag == tag && forall j :: 0 <= j < i ==> items[j].tag != tag
  }

  class MetadataBuffer {
    var version: uint32
    var size: uint32
    var itemCount: uint32
    var itemCapacity: uint32
    var itemsStart: uint32
    var dataCount: uint32
    var dataCapacity: uint32
    var dataStart: uint32
    const items: array<Entry>
    const arena: array<byte>

    ghost function Img(): Image
      reads this, items, arena
      requires itemCount <= items.Length
    {
      Image(items[..itemCount], dataCount, arena[..])
    }

    ghost predicate Valid()
      reads this, items, arena
    {
      && items.Length == itemCapacity <= MAX_ITEM_CAPACITY
      && arena.Length == dataCapacity <= MAX_DATA_CAPACITY
      && itemCount <= itemCapacity
      && itemsStart == HEADER_SIZE
      && dataStart == HEADER_SIZE + ENTRY_SIZE * itemCapacity
      && size == dataStart + Align8(dataCapacity)
      && Tiled(Img())
      && (itemCount > 0 ==> dataCapacity % 8 == 0)
    }

    /** The abstract value: the items in table order. */
    ghost function Contents(): seq<Item>
      reads this, items, arena
      requires Valid()
    {
      Items(Img())
    }

    /** Lay out an empty buffer; only reached with capacities within the limits. */
    constructor (itemCap: uint32, dataCap: uint32)
      requires itemCap <= MAX_ITEM_CAPACITY && dataCap <= MAX_DATA_CAPACITY
      ensures Valid() && Contents() == []
      ensures itemCapacity == itemCap && dataCapacity == dataCap && itemCount == dataCount == 0
      ensures size == MemoryRequired(itemCap, dataCap)
      ensures fresh(items) && fresh(arena)
    {
      hide Align8, MemoryRequired;
      Regions(itemCap, dataCap);
      version := CURRENT_VERSION;
      size := MemoryRequired(itemCap, dataCap);
      itemCount := 0;
      itemCapacity := itemCap;
      itemsStart := HEADER_SIZE;
      dataCount := 0;
      dataCapacity := dataCap;
      dataStart := Align8(HEADER_SIZE + ENTRY_SIZE * itemCap);
      items := new Entry[itemCap](_ => BlankEntry());
      arena := new byte[dataCap](_ => 0);
      new;
      hide Tiled, Items;
      EmptyTiled(Img());
    }

    /** A buffer with a given header, its entries and arena still blank. */
    constructor FromHeader(h: Header)
      ensures HeaderOf() == h && items.Length == h.itemCapacity && arena.Length == h.dataCapacity
      ensures fresh(items) && fresh(arena) && arena[..] == seq(h.dataCapacity, _ => 0)
    {
      version, size := h.version, h.size;
      itemCount, itemCapacity, itemsStart := h.itemCount, h.itemCapacity, h.itemsStart;
      dataCount, dataCapacity, dataStart := h.dataCount, h.dataCapacity, h.dataStart;
      items := new Entry[h.itemCapacity](_ => BlankEntry());
      arena := new byte[h.dataCapacity](_ => 0);
    }

    function HeaderOf(): Header
      reads this
    {
      Header(version, size, itemCount, itemCapacity, itemsStart, dataCount, dataCapacity, dataStart)
    }

    static method Allocate(itemCap: uint32, dataCap: uint32) returns (r: MetadataBuffer?)
      ensures r == null <==> itemCap > MAX_ITEM_CAPACITY || dataCap > MAX_DATA_CAPACITY
      ensures r != null ==> fresh(r) && fresh(r.items) && fresh(r.arena) && r.Valid() && r.Contents() == []
      ensures r != null ==> r.itemCapacity == itemCap && r.dataCapacity == dataCap && r.itemCount == r.dataCount == 0
    {
      if itemCap > MAX_ITEM_CAPACITY || dataCap > MAX_DATA_CAPACITY {
        return null;
      }
      r := new MetadataBuffer(itemCap, dataCap);
    }

    /** Whether the item table can be located: the regions must account for the whole size. */
    predicate ItemsReachable()
      reads this
    {
      dataStart == 0 || size == (dataCapacity + dataStart) % 0x1_0000_0000
    }

    lemma ReachableIffAligned()
      requires Valid()
      ensures ItemsReachable() <==> dataCapacity % 8 == 0
    {
    }

    lemma WithinCapacity()
      requires Valid()
      ensures dataCount <= dataCapacity
    {
    }

    lemma ItemFacts(k: uint32)
      requires Valid() && k < itemCount
      ensures items[k] == Img().entries[k] && EntryOk(items[k]) && InArena(items[k], dataCount)
      ensures ItemDataSize(items[k].dataType, items[k].count) == EntrySpan(items[k])
      ensures EntrySpan(items[k]) <= dataCount <= dataCapacity && dataCapacity % 8 == 0
      ensures Contents()[k] == ItemOf(items[k], arena[..])
      ensures var i := Contents()[k];
              i.dataType < META_NUM_TYPES && 0 < i.count && |i.payload| == PayloadSize(i.dataType, i.count)
    {
      assert items[k] == Img().entries[k];
      SpanIsSize(Img(), k);
      TotalSpanSplit(Img().entries, k);
    }

    /** Why an addition is refused, in the order the checks are made. */
    ghost predicate AddVerdict(table: TagTable, tag: uint32, data: Option<seq<byte>>, count: nat, s: Status)
      reads this, items, arena
    {
      if count == 0 || data.None? then s == InvalidParam
      else if itemCount == itemCapacity then s == ItemCapExceed
      else if table(tag).None? || table(tag).value >= META_NUM_TYPES then s == InvalidParam
      else
        var p := PayloadSize(table(tag).value, count);
        if p > MAX_PAYLOAD then
          s == if ExceedsData(ItemDataSize(table(tag).value, count), dataCount, dataCapacity) then DataCapExceed
               else if dataCapacity % 8 != 0 then InvalidParam
               else Failure
        else if dataCount + Span(p) > dataCapacity then s == DataCapExceed
        else if dataCapacity % 8 != 0 then s == InvalidParam
        else s == Success
    }

    /** When an addition succeeds, in short. */
    lemma AddSucceeds(table: TagTable, tag: uint32, data: Option<seq<byte>>, count: nat)
      requires Valid()
      ensures forall s :: AddVerdict(table, tag, data, count, s) ==>
                (s == Success <==>
                   && count != 0 && data.Some? && itemCount < itemCapacity
                   && table(tag).Some? && table(tag).value < META_NUM_TYPES
                   && PayloadSize(table(tag).value, count) <= MAX_PAYLOAD
                   && dataCount + Span(PayloadSize(table(tag).value, count)) <= dataCapacity
                   && dataCapacity % 8 == 0)
    {
      hide Tiled, Span, PayloadSize, ItemDataSize, ExceedsData;
    }

    method AddItem(table: TagTable, tag: uint32, data: Option<seq<byte>>, count: nat) returns (s: Status)
      requires Valid()
      requires AddVerdict(table, tag, data, count, Success) ==> |data.value| == PayloadSize(table(tag).value, count)
      modifies this`itemCount, this`dataCount, items, arena
      ensures Valid()
      ensures old(AddVerdict(table, tag, data, count, s))
      ensures s != Success ==> Img() == old(Img())
      ensures s == Success ==>
                && count < 0x1_0000_0000 && old(dataCount) + Span(|data.value|) <= dataCapacity
                && Img() == old(Added(Img(), tag, table(tag).value, count, data.value))
                && Contents() == old(Contents()) + [Item(tag, table(tag).value, count, data.value)]
                && itemCount == old(itemCount) + 1 && dataCount == old(dataCount) + Span(|data.value|)
    {
      hide Span, PayloadSize, ItemDataSize, ExceedsData, CopyFails, Tiled, Added;
      WithinCapacity();
      if count == 0 || data.None? {
        return InvalidParam;
      }
      if itemCount == itemCapacity {
        return ItemCapExceed;
      }
      if table(tag).None? || table(tag).value >= META_NUM_TYPES {
        return InvalidParam;
      }
      var dataType := table(tag).value;
      if size - itemsStart < itemCount * ENTRY_SIZE || size - dataStart < dataCount {
        return InvalidParam;
      }
      var dataBytes := ItemDataSize(dataType, count);
      SizeChecks(dataType, count, dataCount, dataCapacity);
      if ExceedsData(dataBytes, dataCount, dataCapacity) {
        return DataCapExceed;
      }
      ReachableIffAligned();
      if !ItemsReachable() {
        return InvalidParam;
      }
      ghost var before := items[..itemCount];
      ClearSlot(tag, dataType, count % 0x1_0000_0000);
      assert items[..itemCount] == before by { assert Img().entries == items[..itemCount]; }
      if CopyFails(dataBytes, PayloadSize(dataType, count), dataCapacity - dataCount) {
        return Failure;
      }
      FillSlot(data.value, dataBytes);
      s := Success;
    }

    /** Reset the first unused entry; nothing a client can see changes. */
    method ClearSlot(tag: uint32, dataType: uint32, count: uint32)
      requires Valid() && itemCount < itemCapacity
      modifies items
      ensures Valid() && Img() == old(Img())
      ensures items[itemCount] == Entry(tag, dataType, count, Inline([0, 0, 0, 0]))
    {
      items[itemCount] := Entry(tag, dataType, count, Inline([0, 0, 0, 0]));
      assert Img() == old(Img());
    }

    /** Copy the payload into the entry or to the end of the arena and count the entry in. */
    method FillSlot(data: seq<byte>, dataBytes: uint32)
      requires Valid() && itemCount < itemCapacity && dataCapacity % 8 == 0
      requires KnownType(items[itemCount]) && 0 < items[itemCount].count
      requires items[itemCount].slot == Inline([0, 0, 0, 0])
      requires |data| == PayloadSize(items[itemCount].dataType, items[itemCount].count)
      requires dataBytes == Span(|data|) && dataCount + dataBytes <= dataCapacity
      modifies this`itemCount, this`dataCount, items, arena
      ensures Valid()
      ensures itemCount == old(itemCount) + 1 && dataCount == old(dataCount) + dataBytes
      ensures var e := old(items[itemCount]);
              && Img() == Added(old(Img()), e.tag, e.dataType, e.count, data)
              && Contents() == old(Contents()) + [Item(e.tag, e.dataType, e.count, data)]
    {
      ghost var before := Img();
      var e := items[itemCount];
      AddRefines(before, e.tag, e.dataType, e.count, data);
      if dataBytes == 0 {
        items[itemCount] := e.(slot := WriteInline(e.slot, data));
      } else {
        items[itemCount] := e.(slot := Outline(dataCount));
        CopyIn(arena, dataCount, data);
        dataCount := dataCount + dataBytes;
      }
      itemCount := itemCount + 1;
      assert items[..itemCount] == Added(before, e.tag, e.dataType, e.count, data).entries;
    }

    /** Read item `index`; in a valid buffer only a bad index is refused. */
    method GetItem(index: uint32) returns (s: Status, item: Item)
      requires Valid()
      ensures s == if index < itemCount then Success else InvalidParam
      ensures s == Success ==> item == Contents()[index]
    {
      hide ItemDataSize, Align8, AsUint32;
      item := Item(0, 0, 0, []);
      if index >= itemCount {
        return InvalidParam, item;
      }
      ReachableIffAligned();
      if !ItemsReachable() {
        return InvalidParam, item;
      }
      var e := items[index];
      assert e == Img().entries[index] && EntryOk(e) && InArena(e, dataCount);
      SpanIsSize(Img(), index);
      var dataBytes := ItemDataSize(e.dataType, e.count);
      if dataBytes == 0 {
        item := Item(e.tag, e.dataType, e.count, e.slot.value[..PayloadSize(e.dataType, e.count)]);
      } else if dataBytes == -1 {
        return Failure, item;
      } else {
        AsUint32Is(dataBytes);
        if e.slot.offset > dataCount || e.slot.offset + AsUint32(dataBytes) > dataCount {
          return Failure, item;
        }
        item := Item(e.tag, e.dataType, e.count,
                     arena[e.slot.offset..e.slot.offset + PayloadSize(e.dataType, e.count)]);
      }
      s := Success;
    }

    /** The first entry with this tag, unless the tag is one whose type is pinned to another. */
    method FindIndex(pinned: map<uint32, uint32>, tag: uint32) returns (s: Status, index: uint32)
      requires Valid()
      ensures dataCapacity % 8 != 0 ==> s == InvalidParam
      ensures dataCapacity % 8 == 0 ==>
                (s == ItemNotFound <==> forall i :: 0 <= i < |Contents()| ==> Contents()[i].tag != tag)
      ensures dataCapacity % 8 == 0 && s != ItemNotFound ==>
                exists i: nat :: FirstWith(Contents(), tag, i)
                            && (s == InvalidParam <==> tag in pinned && pinned[tag] != Contents()[i].dataType)
                            && (s == Success <==> !(tag in pinned && pinned[tag] != Contents()[i].dataType))
                            && (s == Success ==> index == i)
    {
      hide Tiled, Items, ItemDataSize, Align8, EntryOk, InArena, EntrySpan, Payload;
      index := 0;
      ReachableIffAligned();
      if !ItemsReachable() {
        return InvalidParam, index;
      }
      ghost var all := Contents();
      var i: uint32 := 0;
      while i < itemCount && items[i].tag != tag
        invariant i <= itemCount
        invariant forall j :: 0 <= j < i ==> all[j].tag != tag
      {
        ItemFacts(i);
        i := i + 1;
      }
      if i == itemCount {
        return ItemNotFound, index;
      }
      ItemFacts(i);
      assert FirstWith(all, tag, i);
      if tag in pinned && pinned[tag] != items[i].dataType {
        return InvalidParam, index;
      }
      return Success, i;
    }

    /** Squeeze the span of entry `k` out of the arena and move later offsets down. */
    method CompactArena(k: uint32, oldSize: uint32)
      requires Valid() && k < itemCount && items[k].slot.Outline? && oldSize == EntrySpan(items[k])
      modifies this`dataCount, items, arena
      ensures
        var e := old(items[k]);
        && e.slot.offset + oldSize <= old(dataCount)
        && Img() == Compact(old(Img()), e.slot.offset, oldSize)
    {
      hide Tiled, Span, EntrySpan, ItemDataSize, Squeeze, ShiftAll;
      ghost var before := Img();
      ItemFacts(k);
      var off := items[k].slot.offset;
      MoveDown(arena, off, oldSize, dataCount - off - oldSize);
      dataCount := dataCount - oldSize;
      ShiftOffsets(k, oldSize, before);
    }

    /** Lower the offsets behind the squeezed span, entry by entry. */
    method ShiftOffsets(k: uint32, n: uint32, ghost before: Image)
      requires itemCount <= items.Length && Tiled(before) && before.entries == items[..itemCount]
      requires k < itemCount && items[k].slot.Outline?
      modifies items
      ensures items[..itemCount] == ShiftAll(before.entries, old(items[k]).slot.offset, n)
    {
      hide Tiled, Span, EntrySpan, ItemDataSize;
      var off := items[k].slot.offset;
      var i: uint32 := 0;
      while i < itemCount
        invariant i <= itemCount
        invariant forall j :: 0 <= j < i ==> items[j] == ShiftEntry(before.entries[j], off, n)
        invariant forall j :: i <= j < itemCount ==> items[j] == before.entries[j]
        invariant items[k] == before.entries[k]
        modifies items
      {
        SpanIsSize(before, i);
        SetOffset(i, k, n);
        i := i + 1;
      }
      assert items[..itemCount] == ShiftAll(before.entries, off, n);
    }

    method SetOffset(i: uint32, k: uint32, oldSize: uint32)
      requires i < items.Length && k < items.Length
      requires items[k].slot.Outline?
      requires ItemDataSize(items[i].dataType, items[i].count) == EntrySpan(items[i])
      modifies items
      ensures items[i] == ShiftEntry(old(items[i]), old(items[k]).slot.offset, oldSize)
      ensures forall j :: 0 <= j < items.Length && j != i ==> items[j] == old(items[j])
    {
      hide ItemDataSize, EntrySpan;
      if ItemDataSize(items[i].dataType, items[i].count) > 0 && items[i].slot.Outline?
         && items[i].slot.offset > items[k].slot.offset {
        items[i] := items[i].(slot := Outline(AsUint32(items[i].slot.offset - oldSize)));
      }
    }

    /** The payload `data` takes the place of the one of item `k`, whose size class changes. */
    method ResizeItem(k: uint32, count: uint32, data: seq<byte>, newSize: uint32) returns (s: Status)
      requires Valid() && k < itemCount && 0 < count
      requires |data| == PayloadSize(items[k].dataType, count)
      requires newSize == AsUint32(ItemDataSize(items[k].dataType, count))
      requires newSize != EntrySpan(items[k]) && HasRoom(newSize, EntrySpan(items[k]), dataCount, dataCapacity)
      modifies this`dataCount, items, arena
      ensures s == if |data| <= MAX_PAYLOAD then Success else Failure
      ensures s == Success ==>
                && old(UpdateFits(Img(), k, Span(|data|)))
                && Recounted(Img(), k, count) == old(Updated(Img(), k, count, data))
      ensures s == Failure ==> !Tiled(Img())
    {
      hide Span, PayloadSize, ItemDataSize, HasRoom, CopyFails, Tiled, EntrySpan, Updated, Vacated, Squeeze,
        ShiftAll, Recounted, Align8;
      ghost var before := Img();
      ItemFacts(k);
      var oldSize := ItemDataSize(items[k].dataType, items[k].count);
      UpdateChecks(items[k].dataType, count, oldSize, dataCount, dataCapacity);
      if oldSize != 0 {
        CompactArena(k, oldSize);
      }
      VacatedIs(before, k, newSize);
      s := SettleItem(k, count, data, newSize, before);
    }

    /** With its old span freed, put the payload into the entry or at the end of the arena. */
    method SettleItem(k: uint32, count: uint32, data: seq<byte>, newSize: uint32, ghost before: Image)
      returns (s: Status)
      requires itemCount <= items.Length && arena.Length == dataCapacity && dataCount <= dataCapacity
      requires Tiled(before) && k < |before.entries| && newSize != EntrySpan(before.entries[k])
      requires |data| == PayloadSize(before.entries[k].dataType, count)
      requires Img() == Vacated(before, k, newSize)
      requires |data| <= MAX_PAYLOAD ==>
                 && newSize == Span(|data|) && dataCount + newSize <= dataCapacity
                 && UpdateFits(before, k, Span(|data|))
      requires |data| <= MAX_PAYLOAD <==>
                 !CopyFails(newSize, |data|, if newSize == 0 then 0 else dataCapacity - dataCount)
      modifies this`dataCount, items, arena
      ensures s == if |data| <= MAX_PAYLOAD then Success else Failure
      ensures s == Success ==> Recounted(Img(), k, count) == Updated(before, k, count, data)
      ensures s == Failure ==> !Tiled(Img())
    {
      hide Span, PayloadSize, CopyFails, Tiled, EntrySpan, Updated, Vacated;
      ghost var freed := Img();
      if newSize == 0 {
        if CopyFails(0, |data|, 0) {
          items[k] := items[k].(slot := Outline(0));
          assert Img() == freed.(entries := freed.entries[k := items[k]]);
          MovedIsBroken(before, Img(), k, newSize);
          return Failure;
        }
        items[k] := items[k].(slot := WriteInline(items[k].slot, data));
        assert Img() == freed.(entries := freed.entries[k := items[k]]);
      } else {
        items[k] := items[k].(slot := Outline(dataCount));
        assert Img() == freed.(entries := freed.entries[k := items[k]]);
        if CopyFails(newSize, |data|, dataCapacity - dataCount) {
          MovedIsBroken(before, Img(), k, newSize);
          return Failure;
        }
        CopyFitsArena(newSize, |data|, dataCapacity - dataCount);
        CopyIn(arena, dataCount, data);
        dataCount := dataCount + newSize;
      }
      ResizedIsUpdated(before, k, count, data, Img());
      s := Success;
    }

    /** Why an update is refused, for a payload of representable size. */
    ghost predicate UpdateVerdict(k: uint32, data: Option<seq<byte>>, count: uint32, s: Status)
      requires itemCount <= items.Length
      reads this, items, arena
    {
      if k >= itemCount || count == 0 || data.None? then s == InvalidParam
      else s == if UpdateFits(Img(), k, Span(|data.value|)) then Success else DataCapExceed
    }

    /**
     Whether a refused update leaves the buffer alone: always for a payload whose size is
     representable, otherwise only while the wrapped size fails the guards or is the old span.
     */
    ghost predicate RefusalIsClean(k: uint32, data: Option<seq<byte>>, count: uint32)
      requires Valid()
      reads this, items, arena
    {
      k >= itemCount || count == 0 || data.None? || |data.value| <= MAX_PAYLOAD ||
      var newSize, oldSize := AsUint32(ItemDataSize(items[k].dataType, count)), EntrySpan(items[k]);
      if newSize == oldSize then newSize != 0 else !HasRoom(newSize, oldSize, dataCount, dataCapacity)
    }

    /** Whether it clears the item's four bytes instead: the failing copy would have gone into an entry. */
    ghost predicate RefusalBlanks(k: uint32, data: Option<seq<byte>>, count: uint32)
      requires Valid()
      reads this, items, arena
    {
      && k < itemCount && count != 0 && data.Some? && |data.value| > MAX_PAYLOAD
      && AsUint32(ItemDataSize(items[k].dataType, count)) == EntrySpan(items[k]) == 0
    }

    /** The payload `data` takes the place of the one of item `k`, whose size class stays. */
    method RewriteItem(k: uint32, count: uint32, data: seq<byte>, newSize: uint32) returns (s: Status)
      requires Valid() && k < itemCount && 0 < count
      requires |data| == PayloadSize(items[k].dataType, count)
      requires newSize == AsUint32(ItemDataSize(items[k].dataType, count)) == EntrySpan(items[k])
      modifies items, arena
      ensures s == if |data| <= MAX_PAYLOAD then Success else Failure
      ensures s == Success ==>
                && old(UpdateFits(Img(), k, Span(|data|)))
                && Recounted(Img(), k, count) == old(Updated(Img(), k, count, data))
      ensures s == Failure ==> Img() == if newSize == 0 then old(Blanked(Img(), k)) else old(Img())
    {
      hide Span, PayloadSize, ItemDataSize, CopyFails, Tiled;
      ghost var before := Img();
      ItemFacts(k);
      RewriteChecks(items[k].dataType, count, EntrySpan(items[k]));
      if newSize == 0 {
        if CopyFails(0, |data|, 0) {
          items[k] := items[k].(slot := Inline([0, 0, 0, 0]));
          assert Img() == Blanked(before, k);
          return Failure;
        }
        items[k] := items[k].(slot := WriteInline(items[k].slot, data));
        assert Img() == before.(entries := before.entries[k := items[k]]);
      } else {
        if CopyFails(newSize, |data|, dataCapacity - items[k].slot.offset) {
          return Failure;
        }
        CopyIn(arena, items[k].slot.offset, data);
      }
      s := Success;
    }

    method UpdateItemSize(k: uint32, count: uint32, data: seq<byte>) returns (s: Status)
      requires Valid() && k < itemCount && 0 < count
      requires |data| == PayloadSize(items[k].dataType, count)
      modifies this`dataCount, items, arena
      ensures |data| <= MAX_PAYLOAD ==> old(UpdateVerdict(k, Some(data), count, s))
      ensures |data| > MAX_PAYLOAD ==> s != Success
      ensures s == Success ==>
                && old(UpdateFits(Img(), k, Span(|data|)))
                && Recounted(Img(), k, count) == old(Updated(Img(), k, count, data))
      ensures s != Success && old(RefusalIsClean(k, Some(data), count)) ==> Img() == old(Img())
      ensures s != Success && old(RefusalBlanks(k, Some(data), count)) ==> Img() == old(Blanked(Img(), k))
      ensures s != Success && old(!RefusalIsClean(k, Some(data), count) && !RefusalBlanks(k, Some(data), count)) ==>
                !Tiled(Img())
    {
      hide Span, PayloadSize, ItemDataSize, HasRoom, CopyFails, Tiled, EntrySpan, Updated;
      ItemFacts(k);
      var newSize := AsUint32(ItemDataSize(items[k].dataType, count));
      var oldSize := AsUint32(ItemDataSize(items[k].dataType, items[k].count));
      UpdateChecks(items[k].dataType, count, oldSize, dataCount, dataCapacity);
      if newSize == oldSize {
        s := RewriteItem(k, count, data, newSize);
      } else if !HasRoom(newSize, oldSize, dataCount, dataCapacity) {
        s := DataCapExceed;
      } else {
        s := ResizeItem(k, count, data, newSize);
      }
    }

    /** Replace the payload of item `k`. */
    method UpdateByIndex(k: uint32, data: Option<seq<byte>>, count: uint32) returns (s: Status)
      requires Valid()
      requires k < itemCount && data.Some? ==> |data.value| == PayloadSize(items[k].dataType, count)
      modifies this`dataCount, items, arena
      ensures (data.Some? ==> |data.value| <= MAX_PAYLOAD) ==> old(UpdateVerdict(k, data, count, s))
      ensures data.Some? && |data.value| > MAX_PAYLOAD ==> s != Success
      ensures s == Success ==>
                && old(k < itemCount && data.Some? && UpdateFits(Img(), k, Span(|data.value|)))
                && Valid()
                && Img() == old(Updated(Img(), k, count, data.value))
                && Contents() == old(Contents()[k := Contents()[k].(count := count, payload := data.value)])
      ensures s != Success ==> (Valid() <==> old(RefusalIsClean(k, data, count) || RefusalBlanks(k, data, count)))
      ensures s != Success && old(RefusalIsClean(k, data, count)) ==> Img() == old(Img())
      ensures s != Success && old(RefusalBlanks(k, data, count)) ==>
                && Img() == old(Blanked(Img(), k))
                && Contents() == old(Contents()[k := Zeroed(Contents()[k])])
    {
      hide Span, PayloadSize, ItemDataSize, HasRoom, Tiled, EntrySpan, Updated;
      if k >= itemCount || count == 0 || data.None? {
        return InvalidParam;
      }
      ItemFacts(k);
      ReachableIffAligned();
      if !ItemsReachable() {
        return InvalidParam;
      }
      BlankedItems(Img(), k);
      s := UpdateItemSize(k, count, data.value);
      if s == Success {
        UpdateRefines(old(Img()), k, count, data.value);
        items[k] := items[k].(count := count);
        assert Img().entries == old(Updated(Img(), k, count, data.value)).entries;
      }
    }

    /** Remove item `k`: squeeze its span out of the arena, then its entry out of the table. */
    method DeleteByIndex(k: uint32) returns (s: Status)
      requires Valid()
      modifies this`itemCount, this`dataCount, items, arena
      ensures s == if k < old(itemCount) then Success else InvalidParam
      ensures s != Success ==> Valid() && Img() == old(Img())
      ensures s == Success ==>
                && itemCount == old(itemCount) - 1
                && Img() == old(Deleted(Img(), k))
                && (Valid() <==> old(DeleteSafe(Img(), k)))
                && (Valid() ==> Contents() == Without(old(Contents()), k))
    {
      hide Tiled, EntrySpan, ItemDataSize, DeleteSafe, Items, Without, Squeeze, ShiftAllGuarded, Align8;
      if k >= itemCount {
        return InvalidParam;
      }
      ItemFacts(k);
      ReachableIffAligned();
      if !ItemsReachable() {
        return InvalidParam;
      }
      ghost var before := Img();
      DeleteRefinesIff(before, k);
      var dataBytes := ItemDataSize(items[k].dataType, items[k].count);
      if dataBytes > 0 {
        FreeSpan(k, dataBytes);
      } else if dataBytes == -1 {
        return Failure;
      }
      DropEntry(k);
      s := Success;
    }

    /** The arena half of a deletion, with the guard that spares offsets up to the freed size. */
    method FreeSpan(k: uint32, n: uint32)
      requires Valid() && k < itemCount && items[k].slot.Outline? && n == EntrySpan(items[k])
      modifies this`dataCount, items, arena
      ensures var e := old(items[k]);
              && e.slot.offset + n <= old(dataCount)
              && Img() == Image(ShiftAllGuarded(old(Img()).entries, e.slot.offset, n), old(dataCount) - n,
                                Squeeze(old(arena[..]), e.slot.offset, n, old(dataCount)))
    {
      hide Tiled, Span, EntrySpan, ItemDataSize, Squeeze, ShiftAllGuarded;
      ghost var before := Img();
      ItemFacts(k);
      var off := items[k].slot.offset;
      MoveDown(arena, off, n, dataCount - off - n);
      dataCount := dataCount - n;
      ShiftItems(k, n, before);
    }

    /** Lower the offsets behind the freed span, entry by entry. */
    method ShiftItems(k: uint32, n: uint32, ghost before: Image)
      requires itemCount <= items.Length && Tiled(before) && before.entries == items[..itemCount]
      requires k < itemCount && items[k].slot.Outline? && n == EntrySpan(items[k])
      modifies items
      ensures items[..itemCount] == ShiftAllGuarded(before.entries, old(items[k]).slot.offset, n)
    {
      hide Tiled, Span, EntrySpan, ItemDataSize;
      var off := items[k].slot.offset;
      var i: uint32 := 0;
      while i < itemCount
        invariant i <= itemCount
        invariant forall j :: 0 <= j < i ==> items[j] == ShiftEntryGuarded(before.entries[j], off, n)
        invariant forall j :: i <= j < itemCount ==> items[j] == before.entries[j]
        invariant items[k] == before.entries[k]
        modifies items
      {
        SpanIsSize(before, i);
        if items[i].slot.Outline? && items[i].slot.offset > n {
          SetOffset(i, k, n);
        }
        i := i + 1;
      }
      assert items[..itemCount] == ShiftAllGuarded(before.entries, off, n);
    }

    /** Move the later entries down over entry `k`. */
    method DropEntry(k: uint32)
      requires k < itemCount <= items.Length
      modifies this`itemCount, items
      ensures itemCount == old(itemCount) - 1
      ensures items[..itemCount] == Without(old(items[..itemCount]), k)
    {
      ghost var was := items[..itemCount];
      forall i | k <= i < itemCount - 1 {
        items[i] := items[i + 1];
      }
      itemCount := itemCount - 1;
      assert forall i :: 0 <= i < k ==> items[i] == was[i];
      assert forall i :: k <= i < itemCount ==> items[i] == was[i + 1];
    }
  }

  lemma ResizedIsUpdated(before: Image, k: nat, count: uint32, data: seq<byte>, now: Image)
    requires Tiled(before) && k < |before.entries| && |data| == PayloadSize(before.entries[k].dataType, count)
    requires UpdateFits(before, k, Span(|data|)) && Span(|data|) != EntrySpan(before.entries[k])
    requires var freed := Vacated(before, k, Span(|data|));
             && now.dataCount == freed.dataCount + Span(|data|) <= |freed.arena|
             && |now.entries| == |freed.entries|
             && var e := freed.entries[k];
                if Span(|data|) == 0
                then now.entries == freed.entries[k := e.(slot := WriteInline(e.slot, data))]
                    && now.arena == freed.arena
                else now.entries == freed.entries[k := e.(slot := Outline(freed.dataCount))]
                     && now.arena == Overwrite(freed.arena, freed.dataCount, data)
    ensures Recounted(now, k, count) == Updated(before, k, count, data)
  {
    VacatedKeeps(before, k, Span(|data|));
  }

  lemma VacatedIs(img: Image, k: nat, newSpan: nat)
    requires Tiled(img) && k < |img.entries| && newSpan != EntrySpan(img.entries[k])
    ensures Vacated(img, k, newSpan) ==
            if EntrySpan(img.entries[k]) == 0 then img
            else Compact(img, img.entries[k].slot.offset, EntrySpan(img.entries[k]))
  {
  }

  /** The image with the four bytes of entry `k` cleared. */
  function Blanked(img: Image, k: nat): Image
    requires k < |img.entries|
  {
    img.(entries := img.entries[k := img.entries[k].(slot := Inline([0, 0, 0, 0]))])
  }

  function Zeroed(it: Item): Item {
    it.(payload := seq(|it.payload|, _ => 0))
  }

  /** An entry that holds its payload itself, cleared, holds as many zeros. */
  lemma ZeroedEntry(e: Entry, arena: seq<byte>)
    requires EntryOk(e) && e.slot.Inline?
    ensures var e' := e.(slot := Inline([0, 0, 0, 0]));
            EntryOk(e') && EntrySpan(e') == EntrySpan(e) && ItemOf(e', arena) == Zeroed(ItemOf(e, arena))
  {
    assert |Payload(e, arena)| == PayloadSize(e.dataType, e.count) <= 4;
  }

  lemma BlankedTiled(img: Image, k: nat)
    requires Tiled(img) && k < |img.entries| && img.entries[k].slot.Inline?
    ensures Tiled(Blanked(img, k))
  {
    ZeroedEntry(img.entries[k], img.arena);
    TotalSpanReplace(img.entries, k, Blanked(img, k).entries[k]);
    hide EntryOk, EntrySpan, TotalSpan;
  }

  /** Clearing such an entry zeroes its payload and touches nothing else. */
  lemma BlankedItems(img: Image, k: nat)
    requires Tiled(img) && k < |img.entries|
    ensures EntrySpan(img.entries[k]) == 0 ==>
              Tiled(Blanked(img, k)) && Items(Blanked(img, k)) == Items(img)[k := Zeroed(Items(img)[k])]
  {
    assert EntryOk(img.entries[k]);
    hide Tiled, ItemOf, EntrySpan, Zeroed;
    if img.entries[k].slot.Inline? {
      ZeroedEntry(img.entries[k], img.arena);
      BlankedTiled(img, k);
    }
  }

  lemma RewriteChecks(dataType: uint32, count: uint32, size: nat)
    requires dataType < META_NUM_TYPES && AsUint32(ItemDataSize(dataType, count)) == size <= MAX_DATA_CAPACITY
    ensures var p := PayloadSize(dataType, count);
            && (p <= MAX_PAYLOAD ==> Span(p) == size)
            && (size == 0 ==> (p > MAX_PAYLOAD <==> CopyFails(0, p, 0)))
            && forall room :: size != 0 && size <= room <= MAX_DATA_CAPACITY ==>
                 (p > MAX_PAYLOAD <==> CopyFails(size, p, room))
  {
    hide ItemDataSize, PayloadSize, Span, AsUint32;
    var p := PayloadSize(dataType, count);
    if p <= MAX_PAYLOAD {
      AsUint32Is(ItemDataSize(dataType, count));
    }
  }

  /** The image with the element count of entry `k` brought up to date. */
  function Recounted(img: Image, k: nat, count: uint32): Image
    requires k < |img.entries|
  {
    img.(entries := img.entries[k := img.entries[k].(count := count)])
  }

  /** The capacity guards of an update, in 32-bit unsigned arithmetic. */
  predicate HasRoom(newSize: uint32, oldSize: uint32, dataCount: uint32, dataCapacity: uint32) {
    && !(dataCount > 0xFFFF_FFFF - newSize && AsUint32(dataCount + newSize) < oldSize)
    && !(dataCapacity < AsUint32(dataCount + newSize - oldSize))
  }

  /** Move `len` bytes down by `n`, to `off`. */
  method MoveDown(a: array<byte>, off: nat, n: nat, len: nat)
    requires off + n + len <= a.Length
    modifies a
    ensures a[..] == Squeeze(old(a[..]), off, n, off + n + len)
  {
    ghost var was := a[..];
    forall i | 0 <= i < len {
      a[off + i] := a[off + n + i];
    }
    assert a[off..off + len] == was[off + n..off + n + len];
  }

  /** For an entry of a tiled image the computed size is its span. */
  lemma SpanIsSize(img: Image, k: nat)
    requires Tiled(img) && k < |img.entries|
    ensures ItemDataSize(img.entries[k].dataType, img.entries[k].count) == EntrySpan(img.entries[k])
    ensures PayloadSize(img.entries[k].dataType, img.entries[k].count) <= MAX_DATA_CAPACITY + 4
  {
    assert EntryOk(img.entries[k]) && InArena(img.entries[k], img.dataCount);
  }

  /** The first size check of an addition, in 32-bit unsigned arithmetic. */
  predicate ExceedsData(dataBytes: int, dataCount: uint32, dataCapacity: uint32) {
    AsUint32(dataBytes) >= 0xFFFF_FFFF - dataCount || AsUint32(dataBytes) + dataCount > dataCapacity
  }

  /** The second one, before the payload is copied into the entry or the arena. */
  predicate CopyFails(dataBytes: int, payload: nat, room: int) {
    if dataBytes == 0 then payload > 4 else room < payload
  }

  lemma CopyFitsArena(dataBytes: int, payload: nat, room: int)
    requires dataBytes != 0 && !CopyFails(dataBytes, payload, room)
    ensures payload <= room
  {
  }

  /** A payload of representable size is refused only when its span does not fit; no other passes. */
  lemma SizeChecks(dataType: uint32, count: nat, dataCount: uint32, dataCapacity: uint32)
    requires dataType < META_NUM_TYPES && dataCount <= dataCapacity <= MAX_DATA_CAPACITY
    ensures var p, n := PayloadSize(dataType, count), ItemDataSize(dataType, count);
            && (p <= MAX_PAYLOAD ==>
                  && n == Span(p)
                  && (ExceedsData(n, dataCount, dataCapacity) <==> dataCount + Span(p) > dataCapacity))
            && (!ExceedsData(n, dataCount, dataCapacity) ==>
                  (p <= MAX_PAYLOAD <==> !CopyFails(n, p, dataCapacity - dataCount)))
            && (p <= MAX_PAYLOAD ==> count < 0x1_0000_0000)
  {
    hide ItemDataSize, PayloadSize, Span, AsUint32;
    var p := PayloadSize(dataType, count);
    if p <= MAX_PAYLOAD {
      CountFits(dataType, count);
      AsUint32Is(ItemDataSize(dataType, count));
    }
  }

  lemma CountFits(dataType: uint32, count: nat)
    requires dataType < META_NUM_TYPES && PayloadSize(dataType, count) <= MAX_PAYLOAD
    ensures count < 0x1_0000_0000
  {
  }

  /** For a representable payload the guards decide exactly whether it fits; no other is copied. */
  lemma UpdateChecks(dataType: uint32, count: uint32, oldSize: uint32, dataCount: uint32, dataCapacity: uint32)
    requires dataType < META_NUM_TYPES && oldSize <= dataCount <= dataCapacity <= MAX_DATA_CAPACITY
    ensures var p, n := PayloadSize(dataType, count), AsUint32(ItemDataSize(dataType, count));
            && (p <= MAX_PAYLOAD ==>
                  && n == Span(p) == ItemDataSize(dataType, count)
                  && (HasRoom(n, oldSize, dataCount, dataCapacity) <==> dataCount + Span(p) - oldSize <= dataCapacity)
                  && (n == 0 ==> !CopyFails(0, p, 0))
                  && (n != 0 && dataCount + Span(p) - oldSize <= dataCapacity ==>
                        !CopyFails(n, p, dataCapacity - (dataCount - oldSize))))
            && (p > MAX_PAYLOAD ==> (n == 0 ==> CopyFails(0, p, 0))
                                    && (n != 0 ==> CopyFails(n, p, dataCapacity - (dataCount - oldSize))))
  {
    var p := PayloadSize(dataType, count);
    hide PayloadSize;
    if p <= MAX_PAYLOAD {
      assert ItemDataSize(dataType, count) == Span(p) < 0x8000_0000;
      hide ItemDataSize;
      assert AsUint32(Span(p)) == Span(p);
      RoomExact(Span(p), oldSize, dataCount, dataCapacity);
      hide AsUint32, HasRoom;
    }
  }

  /** The 32-bit room check is exact for sizes below 2 GiB. */
  lemma RoomExact(n: uint32, oldSize: uint32, dataCount: uint32, dataCapacity: uint32)
    requires n < 0x8000_0000 && oldSize <= dataCount <= dataCapacity <= MAX_DATA_CAPACITY
    ensures HasRoom(n, oldSize, dataCount, dataCapacity) <==> dataCount + n - oldSize <= dataCapacity
  {
  }

  /** An entry that gets a place in the arena without the count to match breaks the tiling. */
  lemma MovedIsBroken(before: Image, now: Image, k: nat, newSize: nat)
    requires Tiled(before) && k < |before.entries| && newSize != EntrySpan(before.entries[k])
    requires var freed := Vacated(before, k, newSize);
             && |now.entries| == |freed.entries|
             && now.entries == freed.entries[k := freed.entries[k].(slot := now.entries[k].slot)]
             && now.entries[k].slot.Outline? && now.dataCount == freed.dataCount
    ensures !Tiled(now)
  {
    var freed := Vacated(before, k, newSize);
    VacatedKeeps(before, k, newSize);
    TotalSpanReplace(freed.entries, k, now.entries[k]);
    if EntrySpan(before.entries[k]) == 0 {
      assert !EntryOk(now.entries[k]);
    }
  }

  /** Copy the used entries and the used arena into an empty, at least as large buffer. */
  method CopyItems(dst: MetadataBuffer, src: MetadataBuffer) returns (s: Status)
    requires dst.Valid() && src.Valid() && dst.itemCount == dst.dataCount == 0 && dst.dataCapacity % 8 == 0
    requires dst != src && dst.items != src.items && dst.arena != src.arena
    modifies dst, dst.items, dst.arena
    ensures s == if src.itemCount <= dst.itemCapacity && src.dataCount <= dst.dataCapacity then Success else Failure
    ensures s == Success ==>
              && dst.Valid() && dst.Contents() == src.Contents()
              && dst.itemCount == src.itemCount && dst.dataCount == src.dataCount
    ensures dst.itemCapacity == old(dst.itemCapacity) && dst.dataCapacity == old(dst.dataCapacity)
  {
    hide Items, TotalSpan, Align8, EntrySpan, Overwrite, EntryOk, InArena, Apart;
    if src.itemCount != 0 {
      if dst.itemCapacity < src.itemCount {
        return Failure;
      }
      forall i | 0 <= i < src.itemCount {
        dst.items[i] := src.items[i];
      }
    }
    if src.dataCount != 0 {
      if dst.dataCapacity < src.dataCount {
        return Failure;
      }
      CopyIn(dst.arena, 0, src.arena[..src.dataCount]);
    }
    dst.itemCount := src.itemCount;
    dst.dataCount := src.dataCount;
    hide Tiled;
    assert dst.Img().entries == src.Img().entries;
    assert dst.arena[..][..dst.dataCount] == src.arena[..][..dst.dataCount];
    SamePrefixSameItems(dst.Img(), src.Img());
    s := Success;
  }

  method CopyOf(src: MetadataBuffer, itemCap: uint32, dataCap: uint32) returns (r: MetadataBuffer?)
    requires src.Valid() && dataCap % 8 == 0
    ensures r == null <==>
            || itemCap > MAX_ITEM_CAPACITY || dataCap > MAX_DATA_CAPACITY
            || src.itemCount > itemCap || src.dataCount > dataCap
    ensures r != null ==>
              && fresh(r) && fresh(r.items) && fresh(r.arena)
              && r.Valid() && r.Contents() == src.Contents()
              && r.itemCount == src.itemCount && r.dataCount == src.dataCount
              && r.itemCapacity == itemCap && r.dataCapacity == dataCap
  {
    r := MetadataBuffer.Allocate(itemCap, dataCap);
    if r != null {
      var s := CopyItems(r, src);
      if s != Success {
        r := null;
      }
    }
  }

  /** A copy with other capacities and one more item. */
  method CopyWith(src: MetadataBuffer, itemCap: uint32, dataCap: uint32,
                  table: TagTable, tag: uint32, data: seq<byte>, count: nat) returns (r: MetadataBuffer?)
    requires src.Valid() && dataCap % 8 == 0 && 0 < count && table(tag).Some? && table(tag).value < META_NUM_TYPES
    requires |data| == PayloadSize(table(tag).value, count)
    ensures r != null <==>
            && itemCap <= MAX_ITEM_CAPACITY && dataCap <= MAX_DATA_CAPACITY
            && src.itemCount < itemCap && src.dataCount <= dataCap
            && |data| <= MAX_PAYLOAD && src.dataCount + Span(|data|) <= dataCap
    ensures r != null ==>
              && fresh(r) && fresh(r.items) && fresh(r.arena) && r.Valid() && count < 0x1_0000_0000
              && r.Contents() == src.Contents() + [Item(tag, table(tag).value, count, data)]
              && r.itemCapacity == itemCap && r.dataCapacity == dataCap
  {
    hide Tiled, Items, Span, PayloadSize, Added, MetadataBuffer.AddVerdict;
    r := CopyOf(src, itemCap, dataCap);
    if r != null {
      r.AddSucceeds(table, tag, Some(data), count);
      var s := r.AddItem(table, tag, Some(data), count);
      if s != Success {
        r := null;
      }
    }
  }

  /** Only the used arena bytes matter. */
  lemma SamePrefixSameItems(a: Image, b: Image)
    requires Tiled(b) && a.entries == b.entries && a.dataCount == b.dataCount
    requires a.dataCount <= |a.arena| <= MAX_DATA_CAPACITY
    requires a.arena[..a.dataCount] == b.arena[..a.dataCount]
    ensures Tiled(a) && Items(a) == Items(b)
  {
    forall i | 0 <= i < |a.entries|
      ensures Payload(a.entries[i], a.arena) == Payload(b.entries[i], b.arena)
    {
      var e := a.entries[i];
      assert EntryOk(e) && InArena(e, b.dataCount);
      if e.slot.Outline? {
        var o, n := e.slot.offset, PayloadSize(e.dataType, e.count);
        SliceSlice(a.arena, 0, a.dataCount, o, o + n);
        SliceSlice(b.arena, 0, a.dataCount, o, o + n);
      }
    }
  }

  /** The item capacity an object created with none has after growing `n` times. */
  function GrownCapacity(n: nat): nat {
    if n == 0 then 0 else (GrownCapacity(n - 1) + 1) * 2
  }

  lemma {:induction false} GrownCapacityMonotone(m: nat, n: nat)
    requires m <= n
    ensures GrownCapacity(m) <= GrownCapacity(n)
  {
    if m < n {
      GrownCapacityMonotone(m, n - 1);
    }
  }

  lemma ThirteenGrowths()
    ensures GrownCapacity(13) == 16382
  {
    assert GrownCapacity(7) == 254 by { assert GrownCapacity(4) == 30; }
    assert GrownCapacity(10) == 2046;
  }

  /** The thirteenth doubling passes the item limit. */
  lemma GrowthLimit(n: nat)
    requires GrownCapacity(n) <= MAX_ITEM_CAPACITY
    ensures n <= 12
  {
    ThirteenGrowths();
    if n > 12 {
      GrownCapacityMonotone(13, n);
    }
  }

  lemma GrowthStep(n: nat, cap: nat, larger: nat)
    requires GrownCapacity(n) <= cap && larger == (cap + 1) * 2 <= MAX_ITEM_CAPACITY
    ensures GrownCapacity(n + 1) <= larger && n + 1 <= 12
  {
    GrowthLimit(n + 1);
  }

  lemma DoubledItems(cap: nat)
    requires cap <= MAX_ITEM_CAPACITY
    ensures AsUint32((cap + 1) * 2) == (cap + 1) * 2
  {
  }

  /** The owning object; `growths` counts the times it replaced its buffer with a larger one. */
  class CameraMetadata {
    var buffer: MetadataBuffer?
    ghost var growths: nat

    ghost predicate Valid()
      reads this, buffer, if buffer == null then {} else {buffer.items, buffer.arena}
    {
      && (buffer != null ==> buffer.Valid() && buffer.dataCapacity % 8 == 0)
      && (buffer != null ==> GrownCapacity(growths) <= buffer.itemCapacity)
      && growths <= 12
    }

    constructor (itemCap: uint32, dataCap: uint32)
      ensures Valid() && growths == 0
      ensures buffer == null <==> itemCap > MAX_ITEM_CAPACITY || AlignUint32(dataCap) > MAX_DATA_CAPACITY
      ensures buffer != null ==>
                && fresh(buffer) && fresh(buffer.items) && fresh(buffer.arena)
                && buffer.Contents() == []
                && buffer.itemCapacity == itemCap && buffer.dataCapacity == AlignUint32(dataCap)
    {
      new;
      growths := 0;
      buffer := MetadataBuffer.Allocate(itemCap, AlignUint32(dataCap));
    }

    /** The doubled capacities a failed addition asks for. */
    ghost predicate GrowthWithinLimits(p: nat)
      reads this, buffer
      requires buffer != null
    {
      && (buffer.itemCapacity + 1) * 2 <= MAX_ITEM_CAPACITY
      && (buffer.dataCapacity + Span(p)) * 2 <= MAX_DATA_CAPACITY
    }

    /** Whether the buffer has room for one more item with a payload of `p` bytes. */
    ghost predicate HasRoomFor(p: nat)
      reads this, buffer
      requires buffer != null
    {
      buffer.itemCount < buffer.itemCapacity && buffer.dataCount + Span(p) <= buffer.dataCapacity
    }

    /** The caller's part: `data` holds `count` elements of the tag's type. */
    ghost predicate WellSized(table: TagTable, tag: uint32, data: Option<seq<byte>>, count: nat) {
      data.Some? && table(tag).Some? && table(tag).value < META_NUM_TYPES ==>
        |data.value| == PayloadSize(table(tag).value, count)
    }

    /** Add an item, growing the buffer once if it is full. */
    method AddEntry(table: TagTable, tag: uint32, data: Option<seq<byte>>, count: nat) returns (ok: bool)
      requires Valid() && WellSized(table, tag, data, count)
      modifies this, buffer, if buffer == null then {} else {buffer.items, buffer.arena}
      ensures Valid()
      ensures ok <==>
              && old(buffer) != null && 0 < count && data.Some?
              && table(tag).Some? && table(tag).value < META_NUM_TYPES
              && (old(HasRoomFor(|data.value|)) || old(GrowthWithinLimits(|data.value|)))
      ensures ok ==>
                && buffer != null && count < 0x1_0000_0000
                && buffer.Contents() == old(buffer.Contents()) + [Item(tag, table(tag).value, count, data.value)]
                && growths == old(growths) + if old(HasRoomFor(|data.value|)) then 0 else 1
      ensures !ok ==> buffer == old(buffer) && growths == old(growths)
      ensures !ok && buffer != null ==> buffer.Img() == old(buffer.Img())
    {
      if buffer == null {
        return false;
      }
      hide Span, PayloadSize, ItemDataSize, Tiled;
      var s := buffer.AddItem(table, tag, data, count);
      if s == Success {
        return true;
      }
      if s != ItemCapExceed && s != DataCapExceed {
        return false;
      }
      ok := ResizeAdd(table, tag, data.value, count);
    }

    /** A copy of the buffer with doubled capacities and the item added, if the limits allow it. */
    method EnlargedWith(table: TagTable, tag: uint32, data: seq<byte>, count: nat) returns (larger: MetadataBuffer?)
      requires Valid() && WellSized(table, tag, Some(data), count) && buffer != null && 0 < count
      ensures larger != null <==>
              table(tag).Some? && table(tag).value < META_NUM_TYPES && GrowthWithinLimits(|data|)
      ensures larger != null ==>
                && fresh(larger) && fresh(larger.items) && fresh(larger.arena)
                && larger.Valid() && count < 0x1_0000_0000
                && larger.Contents() == buffer.Contents() + [Item(tag, table(tag).value, count, data)]
                && larger.itemCapacity == (buffer.itemCapacity + 1) * 2 && larger.dataCapacity % 8 == 0
    {
      if table(tag).None? {
        return null;
      }
      var size := ItemDataSize(table(tag).value, count);
      if size == -1 {
        return null;
      }
      hide Span, PayloadSize, ItemDataSize, Tiled, Items, DoubledData, AsUint32, GrownCapacity;
      DoubledItems(buffer.itemCapacity);
      var itemCap := AsUint32((buffer.itemCapacity + 1) * 2);
      var dataCap := DoubledData(buffer.dataCapacity, size);
      buffer.WithinCapacity();
      GrowthExact(table(tag).value, count, buffer.itemCapacity, buffer.dataCapacity,
                  buffer.itemCount, buffer.dataCount);
      larger := CopyWith(buffer, itemCap, dataCap, table, tag, data, count);
    }

    method ResizeAdd(table: TagTable, tag: uint32, data: seq<byte>, count: nat) returns (ok: bool)
      requires Valid() && WellSized(table, tag, Some(data), count) && buffer != null && 0 < count
      modifies this`buffer, this`growths
      ensures Valid()
      ensures ok <==> table(tag).Some? && table(tag).value < META_NUM_TYPES && old(GrowthWithinLimits(|data|))
      ensures ok ==>
                && buffer != null && count < 0x1_0000_0000
                && buffer.Contents() == old(buffer.Contents()) + [Item(tag, table(tag).value, count, data)]
                && growths == old(growths) + 1
      ensures !ok ==> buffer == old(buffer) && growths == old(growths)
    {
      hide Span, PayloadSize, Tiled, GrownCapacity;
      var larger := EnlargedWith(table, tag, data, count);
      if larger == null {
        return false;
      }
      GrowthStep(growths, buffer.itemCapacity, larger.itemCapacity);
      buffer := larger;
      growths := growths + 1;
      ok := true;
    }
  }

  /** The doubled arena size, in 32-bit arithmetic. */
  function DoubledData(dataCapacity: uint32, size: int): (cap: uint32)
    ensures cap % 8 == 0
  {
    AlignUint32(AsUint32(AsUint32(dataCapacity + size) * 2))
  }

  lemma DoubledDataExact(dataCapacity: uint32, size: nat)
    requires dataCapacity <= MAX_DATA_CAPACITY && dataCapacity % 8 == 0 && size % 8 == 0 && size < 0x4000_0000
    ensures DoubledData(dataCapacity, size) == (dataCapacity + size) * 2
  {
    hide AlignUint32, AsUint32, Align8;
    var sum := dataCapacity + size;
    var x := sum + sum;
    AlignedDifference(dataCapacity, size);
    AlignedDifference(sum, sum);
    AsUint32Is(sum);
    AsUint32Is(x);
    Align8Is(x);
  }

  lemma AsUint32Is(x: nat)
    requires x < 0x1_0000_0000
    ensures AsUint32(x) == x
  {
  }

  lemma Align8Is(x: nat)
    requires x % 8 == 0
    ensures Align8(x) == x
  {
  }

  lemma DoubledDataWraps(dataCapacity: uint32, size: nat)
    requires dataCapacity <= MAX_DATA_CAPACITY && dataCapacity % 8 == 0 && size % 8 == 0
    requires 0x4000_0000 <= size < 0x8000_0000
    ensures DoubledData(dataCapacity, size) > MAX_DATA_CAPACITY || DoubledData(dataCapacity, size) < size
  {
    var x := (dataCapacity + size) * 2;
    if x < 0x1_0000_0000 {
      assert AsUint32(x) == x;
    } else {
      assert AsUint32(x) == x - 0x1_0000_0000 <= 2 * MAX_DATA_CAPACITY;
    }
  }

  /** The doubled arena size is either the true one or refused, or too small for the payload. */
  lemma GrowthArithmetic(dataType: uint32, count: nat, dataCapacity: uint32)
    requires dataType < META_NUM_TYPES && dataCapacity <= MAX_DATA_CAPACITY && dataCapacity % 8 == 0
    ensures var p, size := PayloadSize(dataType, count), ItemDataSize(dataType, count);
            var cap := DoubledData(dataCapacity, size);
            if (dataCapacity + Span(p)) * 2 <= MAX_DATA_CAPACITY
            then cap == (dataCapacity + Span(p)) * 2 && p <= MAX_PAYLOAD
            else p > MAX_PAYLOAD || cap > MAX_DATA_CAPACITY || Span(p) > cap
  {
    var p := PayloadSize(dataType, count);
    hide DoubledData;
    if p <= MAX_PAYLOAD {
      if Span(p) < 0x4000_0000 {
        DoubledDataExact(dataCapacity, Span(p));
      } else {
        DoubledDataWraps(dataCapacity, Span(p));
      }
    }
  }

  /** Copying to the doubled capacities and adding both succeed exactly within the limits. */
  lemma GrowthExact(dataType: uint32, count: nat, itemCapacity: uint32, dataCapacity: uint32,
                    itemCount: uint32, dataCount: uint32)
    requires dataType < META_NUM_TYPES && dataCapacity <= MAX_DATA_CAPACITY && dataCapacity % 8 == 0
    requires itemCount <= itemCapacity && dataCount <= dataCapacity
    ensures var p, items := PayloadSize(dataType, count), (itemCapacity + 1) * 2;
            var cap := DoubledData(dataCapacity, ItemDataSize(dataType, count));
            items <= MAX_ITEM_CAPACITY && (dataCapacity + Span(p)) * 2 <= MAX_DATA_CAPACITY <==>
              && items <= MAX_ITEM_CAPACITY && cap <= MAX_DATA_CAPACITY && itemCount < items && dataCount <= cap
              && p <= MAX_PAYLOAD && dataCount + Span(p) <= cap
  {
    hide DoubledData, ItemDataSize, Span, PayloadSize;
    GrowthArithmetic(dataType, count, dataCapacity);
  }

  function AlignUint32(n: uint32): (r: uint32)
    ensures r % 8 == 0
    ensures n <= 0xFFFF_FFF8 ==> r == Align8(n)
  {
    Align8(n) % 0x1_0000_0000
  }

  /** Copy `data` into `a` at `off`. */
  method CopyIn(a: array<byte>, off: nat, data: seq<byte>)
    requires off + |data| <= a.Length
    modifies a
    ensures a[..] == Overwrite(old(a[..]), off, data)
  {
    ghost var was := a[..];
    forall i | 0 <= i < |data| {
      a[off + i] := data[i];
    }
    assert a[off..off + |data|] == data;
  }
}
