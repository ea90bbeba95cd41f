/**
 The logical content of a camera metadata buffer and the layout invariant that ties it to
 the item table and the byte arena. Every in-place operation of the buffer has its effect
 described here as a function on images; the lemmas say what that effect means.
 */
module MetadataLayout {
  import opened Bytes

  const META_NUM_TYPES: nat := 7
  const MAX_ITEM_CAPACITY: nat := 10000
  const MAX_DATA_CAPACITY: nat := 1000000
  /** Largest payload whose 8-aligned size still fits the signed 32-bit size result. */
  const MAX_PAYLOAD: nat := 0x7FFF_FFF8

  /** The 4-byte union of an item entry: a short payload, or where a long one starts. */
  datatype Slot = Inline(value: seq<byte>) | Outline(offset: uint32)

  datatype Entry = Entry(tag: uint32, dataType: uint32, count: uint32, slot: Slot)

  /** What a client sees of an entry. */
  datatype Item = Item(tag: uint32, dataType: uint32, count: uint32, payload: seq<byte>)

  /** The used part of the item table and the whole arena, of which `dataCount` bytes are used. */
  datatype Image = Image(entries: seq<Entry>, dataCount: nat, arena: seq<byte>)

  function Align8(n: nat): (r: nat)
    ensures r % 8 == 0 && n <= r < n + 8
  {
    (n + 7) / 8 * 8
  }

  /** `count` elements of type `t`: bytes, 4-byte words and floats, or 8-byte words. */
  function PayloadSize(t: nat, count: nat): nat
    requires t < META_NUM_TYPES
  {
    if t == 0 then count else if t <= 3 then 4 * count else 8 * count
  }

  /** Arena bytes taken by a payload of `p` bytes: none when it fits the entry itself. */
  function Span(p: nat): (n: nat)
    ensures n % 8 == 0 && (n == 0 <==> p <= 4) && (n > 0 ==> p <= n)
  {
    if p <= 4 then 0 else Align8(p)
  }

  predicate KnownType(e: Entry) {
    e.dataType < META_NUM_TYPES
  }

  function EntrySpan(e: Entry): (n: nat)
    ensures n % 8 == 0
  {
    if KnownType(e) then Span(PayloadSize(e.dataType, e.count)) else 0
  }

  function SlotBytes(s: Slot): seq<byte> {
    match s
    case Inline(value) => value
    case Outline(offset) => LE32(offset)
  }

  /** The entry on its own: a known type, and a slot of the kind its size calls for. */
  predicate EntryOk(e: Entry) {
    && KnownType(e)
    && 0 < e.count
    && (e.slot.Inline? <==> EntrySpan(e) == 0)
    && (e.slot.Inline? ==> |e.slot.value| == 4)
  }

  predicate InArena(e: Entry, dataCount: nat) {
    e.slot.Outline? ==> e.slot.offset % 8 == 0 && e.slot.offset + EntrySpan(e) <= dataCount
  }

  predicate Apart(a: Entry, b: Entry) {
    a.slot.Outline? && b.slot.Outline? ==>
      a.slot.offset + EntrySpan(a) <= b.slot.offset || b.slot.offset + EntrySpan(b) <= a.slot.offset
  }

  function TotalSpan(es: seq<Entry>): (n: nat)
    ensures n % 8 == 0
  {
    if es == [] then 0 else
    AlignedDifference(EntrySpan(es[0]), TotalSpan(es[1..]));
    EntrySpan(es[0]) + TotalSpan(es[1..])
  }

  /** Everything the layout promises about the entries other than `hole`. */
  ghost predicate TiledExcept(img: Image, hole: nat) {
    && img.dataCount <= |img.arena|
    && (forall i :: 0 <= i < |img.entries| && i != hole ==>
          EntryOk(img.entries[i]) && InArena(img.entries[i], img.dataCount))
    && (forall i, j :: 0 <= i < j < |img.entries| && i != hole && j != hole ==>
          Apart(img.entries[i], img.entries[j]))
  }

  /**
   The arena invariant: the 8-aligned spans of the out-of-line items lie in the used arena,
   are pairwise disjoint, and add up to exactly the bytes used. `TiledCovers` shows that
   they therefore leave no byte uncovered.
   */
  ghost predicate Tiled(img: Image) {
    && TiledExcept(img, |img.entries|)
    && TotalSpan(img.entries) == img.dataCount
    && |img.arena| <= MAX_DATA_CAPACITY
  }

  /** The payload an entry denotes. */
  function Payload(e: Entry, arena: seq<byte>): (p: seq<byte>)
    requires EntryOk(e) && InArena(e, |arena|)
  {
    var n := PayloadSize(e.dataType, e.count);
    match e.slot
    case Inline(value) => value[..n]
    case Outline(offset) => arena[offset..offset + n]
  }

  function ItemOf(e: Entry, arena: seq<byte>): Item
    requires EntryOk(e) && InArena(e, |arena|)
  {
    Item(e.tag, e.dataType, e.count, Payload(e, arena))
  }

  /** The abstract value of a buffer: its items in table order. */
  ghost function Items(img: Image): (items: seq<Item>)
    requires Tiled(img)
    ensures |items| == |img.entries|
  {
    seq(|img.entries|, i requires 0 <= i < |img.entries| => ItemOf(img.entries[i], img.arena))
  }

  lemma EmptyTiled(img: Image)
    requires img.entries == [] && img.dataCount == 0 && |img.arena| <= MAX_DATA_CAPACITY
    ensures Tiled(img) && Items(img) == []
  {
  }

  // ----- sums of spans -----

  lemma {:induction false} TotalSpanConcat(a: seq<Entry>, b: seq<Entry>)
    ensures TotalSpan(a + b) == TotalSpan(a) + TotalSpan(b)
  {
    if a == [] {
      assert a + b == b;
    } else {
      assert (a + b)[1..] == a[1..] + b;
      TotalSpanConcat(a[1..], b);
    }
  }

  lemma TotalSpanSplit(es: seq<Entry>, i: nat)
    requires i < |es|
    ensures TotalSpan(es) == TotalSpan(es[..i]) + EntrySpan(es[i]) + TotalSpan(es[i + 1..])
  {
    assert es == es[..i] + ([es[i]] + es[i + 1..]);
    TotalSpanConcat(es[..i], [es[i]] + es[i + 1..]);
    TotalSpanConcat([es[i]], es[i + 1..]);
    assert TotalSpan([es[i]]) == EntrySpan(es[i]);
  }

  lemma TotalSpanReplace(es: seq<Entry>, i: nat, e: Entry)
    requires i < |es|
    ensures TotalSpan(es[i := e]) == TotalSpan(es) - EntrySpan(es[i]) + EntrySpan(e)
  {
    TotalSpanSplit(es, i);
    TotalSpanSplit(es[i := e], i);
    assert es[i := e][..i] == es[..i] && es[i := e][i + 1..] == es[i + 1..];
  }

  lemma {:induction false} TotalSpanSame(a: seq<Entry>, b: seq<Entry>)
    requires |a| == |b|
    requires forall i :: 0 <= i < |a| ==> EntrySpan(a[i]) == EntrySpan(b[i])
    ensures TotalSpan(a) == TotalSpan(b)
  {
    if a == [] {
    } else {
      TotalSpanSame(a[1..], b[1..]);
    }
  }

  // ----- no byte of the used arena is left uncovered -----

  function Range(lo: int, hi: int): (s: set<int>)
    ensures forall p :: p in s <==> lo <= p < hi
    decreases hi - lo
  {
    if lo < hi then Range(lo, hi - 1) + {hi - 1} else {}
  }

  lemma {:induction false} RangeCard(lo: int, hi: int)
    requires lo <= hi
    ensures |Range(lo, hi)| == hi - lo
    decreases hi - lo
  {
    if lo < hi {
      RangeCard(lo, hi - 1);
    }
  }

  /** The arena positions an entry's span occupies. */
  function Cells(e: Entry): (s: set<int>) {
    if e.slot.Outline? then Range(e.slot.offset, e.slot.offset + EntrySpan(e)) else {}
  }

  ghost function AllCells(es: seq<Entry>): set<int> {
    if es == [] then {} else Cells(es[0]) + AllCells(es[1..])
  }

  lemma {:induction false} InAllCells(es: seq<Entry>, p: int)
    requires p in AllCells(es)
    ensures exists i :: 0 <= i < |es| && p in Cells(es[i])
  {
    if p !in Cells(es[0]) {
      InAllCells(es[1..], p);
      var k :| 0 <= k < |es[1..]| && p in Cells(es[1..][k]);
      assert p in Cells(es[k + 1]);
    }
  }

  lemma {:induction false} CellsCard(es: seq<Entry>)
    requires forall i :: 0 <= i < |es| ==> EntryOk(es[i])
    requires forall i, j :: 0 <= i < j < |es| ==> Apart(es[i], es[j])
    ensures |AllCells(es)| == TotalSpan(es)
  {
    hide Cells, EntrySpan, Apart, EntryOk;
    if es == [] {
    } else {
      var e, rest := es[0], es[1..];
      CellsCard(rest);
      EntryCells(e);
      FirstCellsApart(es);
    }
  }

  lemma EntryCells(e: Entry)
    requires EntryOk(e)
    ensures |Cells(e)| == EntrySpan(e)
  {
    if e.slot.Outline? {
      RangeCard(e.slot.offset, e.slot.offset + EntrySpan(e));
    }
  }

  lemma FirstCellsApart(es: seq<Entry>)
    requires es != [] && forall i :: 0 < i < |es| ==> Apart(es[0], es[i])
    ensures Cells(es[0]) !! AllCells(es[1..])
  {
    var rest := es[1..];
    hide EntrySpan, AllCells;
    forall p | p in AllCells(rest) ensures p !in Cells(es[0]) {
      InAllCells(rest, p);
      var k :| 0 <= k < |rest| && p in Cells(rest[k]);
      assert rest[k] == es[k + 1];
      assert Apart(es[0], es[k + 1]);
    }
  }

  lemma {:induction false} AllCellsBelow(es: seq<Entry>, n: nat)
    requires forall i :: 0 <= i < |es| ==> EntryOk(es[i]) && InArena(es[i], n)
    ensures AllCells(es) <= Range(0, n)
  {
    if es == [] {
    } else {
      AllCellsBelow(es[1..], n);
      assert EntryOk(es[0]) && InArena(es[0], n);
    }
  }

  lemma SubsetSameCard(a: set<int>, b: set<int>)
    requires a <= b && |a| == |b|
    ensures a == b
  {
    assert b == a + (b - a);
  }

  /** The spans tile the used arena: every used byte belongs to exactly one item. */
  lemma TiledCovers(img: Image, p: nat)
    requires Tiled(img) && p < img.dataCount
    ensures exists i :: 0 <= i < |img.entries| && p in Cells(img.entries[i])
    ensures forall i, j :: (0 <= i < j < |img.entries|) ==>
                             !(p in Cells(img.entries[i]) && p in Cells(img.entries[j]))
  {
    CellsCard(img.entries);
    RangeCard(0, img.dataCount);
    AllCellsBelow(img.entries, img.dataCount);
    SubsetSameCard(AllCells(img.entries), Range(0, img.dataCount));
    InAllCells(img.entries, p);
    forall i, j | 0 <= i < j < |img.entries|
      ensures !(p in Cells(img.entries[i]) && p in Cells(img.entries[j]))
    {
      assert Apart(img.entries[i], img.entries[j]);
    }
  }
}
