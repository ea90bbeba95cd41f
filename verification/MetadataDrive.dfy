/** Real buffers driven by lists of operations, and by the two inputs that break them. */
module MetadataDrive {
  import opened Bytes
  import opened MetadataLayout
  import opened MetadataImage
  import opened MetadataRun
  import opened MetadataStore
  import opened Wrappers

  /** What callers see to: tags are added as they are recorded, with payloads of that size. */
  ghost predicate Callable(table: TagTable, op: Op) {
    match op
    case AddOp(tag, dataType, count, data) =>
      table(tag) == Some(dataType) && dataType < META_NUM_TYPES && |data| == PayloadSize(dataType, count)
    case UpdateOp(k, count, data) => |data| <= MAX_PAYLOAD
    case DeleteOp(k) => true
  }

  /** One operation; an update whose payload is not of the item's size is not a call to make. */
  method Apply(table: TagTable, b: MetadataBuffer, op: Op)
    requires b.Valid() && b.dataCapacity % 8 == 0 && Callable(table, op) && SafeOp(b.Img(), op)
    modifies b`itemCount, b`dataCount, b.items, b.arena
    ensures b.Valid() && b.Img() == Step(old(b.Img()), b.itemCapacity, op)
  {
    match op
    case AddOp(tag, dataType, count, data) =>
      ApplyAdd(table, b, tag, dataType, count, data);
    case UpdateOp(k, count, data) =>
      if k < b.itemCount {
        b.ItemFacts(k);
        if |data| == PayloadSize(b.items[k].dataType, count) {
          ApplyUpdate(b, k, count, data);
        }
      }
    case DeleteOp(k) =>
      if k < b.itemCount {
        hide Tiled, DeleteSafe, Deleted;
        var s := b.DeleteByIndex(k);
      }
  }

  method ApplyAdd(table: TagTable, b: MetadataBuffer, tag: uint32, dataType: uint32, count: uint32, data: seq<byte>)
    requires b.Valid() && b.dataCapacity % 8 == 0 && table(tag) == Some(dataType) && dataType < META_NUM_TYPES
    requires |data| == PayloadSize(dataType, count)
    modifies b`itemCount, b`dataCount, b.items, b.arena
    ensures b.Valid() && b.Img() == Step(old(b.Img()), b.itemCapacity, AddOp(tag, dataType, count, data))
  {
    hide Tiled, Span, PayloadSize, Added, MetadataBuffer.AddVerdict;
    b.AddSucceeds(table, tag, Some(data), count);
    SpanIsSmall(|data|);
    b.WithinCapacity();
    var s := b.AddItem(table, tag, Some(data), count);
  }

  lemma SpanIsSmall(p: nat)
    ensures Span(p) <= MAX_DATA_CAPACITY ==> p <= MAX_PAYLOAD
  {
  }

  method ApplyUpdate(b: MetadataBuffer, k: uint32, count: uint32, data: seq<byte>)
    requires b.Valid() && k < b.itemCount && |data| == PayloadSize(b.items[k].dataType, count) && |data| <= MAX_PAYLOAD
    modifies b`dataCount, b.items, b.arena
    ensures b.Valid() && b.Img() == Step(old(b.Img()), b.itemCapacity, UpdateOp(k, count, data))
  {
    hide Tiled, Span, PayloadSize, Updated, UpdateFits, ItemDataSize, HasRoom;
    b.ItemFacts(k);
    var s := b.UpdateByIndex(k, Some(data), count);
  }

  /** A buffer driven by any safe list of operations holds what the plain list does. */
  method Drive(table: TagTable, b: MetadataBuffer, ops: seq<Op>)
    requires b.Valid() && b.dataCapacity % 8 == 0
    requires forall op :: op in ops ==> Callable(table, op)
    requires SafeRun(b.Img(), b.itemCapacity, ops)
    modifies b`itemCount, b`dataCount, b.items, b.arena
    ensures b.Valid() && b.Img() == Run(old(b.Img()), b.itemCapacity, ops)
    ensures b.Contents() == ListRun(old(b.Contents()), b.itemCapacity, b.dataCapacity, ops)
  {
    hide Tiled, Step, ListStep, Callable, SafeOp;
    ghost var start := b.Img();
    RunRefines(start, b.itemCapacity, ops);
    var i := 0;
    assert ops[0..] == ops;
    while i < |ops|
      invariant 0 <= i <= |ops| && b.Valid() && SafeRun(b.Img(), b.itemCapacity, ops[i..])
      invariant Run(start, b.itemCapacity, ops) == Run(b.Img(), b.itemCapacity, ops[i..])
    {
      assert ops[i..][0] == ops[i] && ops[i..][1..] == ops[i + 1..];
      Apply(table, b, ops[i]);
      i := i + 1;
    }
  }

  /**
   A payload of 4 GiB and 8 bytes has the 32-bit size 8. Updating an item of 16 bytes with it passes
   the room check, frees the old span and then fails, so that the refusal leaves a broken buffer.
   */
  method WrappedUpdate(data: seq<byte>) returns (b: MetadataBuffer, s: Status)
    requires |data| == PayloadSize(4, 0x2000_0001)
    ensures fresh(b) && s != Success && !b.Valid()
  {
    hide Tiled, Items, Added, Updated, PayloadSize, ItemDataSize, MetadataBuffer.AddVerdict;
    var table := (tag: uint32) => if tag == 1 then Some(4) else None;
    b := new MetadataBuffer(1, 16);
    var sixteen := seq(16, _ => 0);
    WrappedSize();
    b.AddSucceeds(table, 1, Some(sixteen), 2);
    s := b.AddItem(table, 1, Some(sixteen), 2);
    b.ItemFacts(0);
    s := b.UpdateByIndex(0, Some(data), 0x2000_0001);
  }

  /** Refused, too, but with a size that wraps to 0: the four bytes of the item are cleared. */
  method BlankingUpdate(data: seq<byte>) returns (b: MetadataBuffer, s: Status)
    requires |data| == PayloadSize(1, 0x4000_0000)
    ensures fresh(b) && s != Success && b.Valid() && b.Contents() == [Item(1, 1, 1, [0, 0, 0, 0])]
  {
    hide Tiled, Items, Added, Updated, PayloadSize, ItemDataSize, MetadataBuffer.AddVerdict;
    var table := (tag: uint32) => if tag == 1 then Some(1) else None;
    b := new MetadataBuffer(1, 8);
    BlankSize();
    b.AddSucceeds(table, 1, Some([1, 2, 3, 4]), 1);
    s := b.AddItem(table, 1, Some([1, 2, 3, 4]), 1);
    b.ItemFacts(0);
    s := b.UpdateByIndex(0, Some(data), 0x4000_0000);
    assert seq(4, _ => 0) == [0, 0, 0, 0];
  }

  lemma BlankSize()
    ensures PayloadSize(1, 0x4000_0000) > MAX_PAYLOAD && AsUint32(ItemDataSize(1, 0x4000_0000)) == 0
    ensures PayloadSize(1, 1) == 4 && Span(4) == 0
  {
  }

  lemma WrappedSize()
    ensures PayloadSize(4, 0x2000_0001) > MAX_PAYLOAD && AsUint32(ItemDataSize(4, 0x2000_0001)) == 8
    ensures PayloadSize(4, 2) == Span(16) == 16 && HasRoom(8, 16, 16, 16)
  {
  }
}
