/**
 The effect of each in-place operation on the image of a metadata buffer, and the proof that
 it acts on the abstract item sequence as intended while the arena stays tiled.
 */
module MetadataImage {
  import opened Bytes
  import opened MetadataLayout

  // ----- the operations -----

  function Put<T>(s: seq<T>, k: nat, x: T): (r: seq<T>)
    requires k <= |s|
    ensures |r| == if k < |s| then |s| else |s| + 1
    ensures r[k] == x
    ensures forall i :: 0 <= i < |s| && i != k ==> r[i] == s[i]
  {
    if k < |s| then s[k := x] else s + [x]
  }

  function Without<T>(s: seq<T>, k: nat): seq<T>
    requires k < |s|
  {
    s[..k] + s[k + 1..]
  }

  /** Store `e` as entry `k`, its payload `data` in the arena when it is out of line. */
  function Place(img: Image, k: nat, e: Entry, dataCount: nat, data: seq<byte>): Image
    requires k <= |img.entries|
    requires e.slot.Outline? ==> e.slot.offset + |data| <= |img.arena|
  {
    Image(Put(img.entries, k, e), dataCount,
          if e.slot.Outline? then Overwrite(img.arena, e.slot.offset, data) else img.arena)
  }

  /** An entry after `n` arena bytes at `off` were squeezed out (32-bit unsigned subtraction). */
  function ShiftEntry(e: Entry, off: nat, n: nat): Entry {
    if EntrySpan(e) > 0 && e.slot.Outline? && e.slot.offset > off
    then e.(slot := Outline((e.slot.offset - n) % 0x1_0000_0000))
    else e
  }

  /** The same under the extra guard of the deletion path: offsets up to `n` stay as they are. */
  function ShiftEntryGuarded(e: Entry, off: nat, n: nat): Entry {
    if e.slot.Outline? && e.slot.offset > n then ShiftEntry(e, off, n) else e
  }

  function ShiftAll(es: seq<Entry>, off: nat, n: nat): seq<Entry> {
    seq(|es|, i requires 0 <= i < |es| => ShiftEntry(es[i], off, n))
  }

  function ShiftAllGuarded(es: seq<Entry>, off: nat, n: nat): seq<Entry> {
    seq(|es|, i requires 0 <= i < |es| => ShiftEntryGuarded(es[i], off, n))
  }

  /** The arena after the bytes behind `[off, off + n)` moved down; the tail keeps stale bytes. */
  function Squeeze(arena: seq<byte>, off: nat, n: nat, dataCount: nat): seq<byte>
    requires off + n <= dataCount <= |arena|
  {
    Overwrite(arena, off, arena[off + n..dataCount])
  }

  function Compact(img: Image, off: nat, n: nat): Image
    requires off + n <= img.dataCount <= |img.arena|
  {
    Image(ShiftAll(img.entries, off, n), img.dataCount - n, Squeeze(img.arena, off, n, img.dataCount))
  }

  /** The slot after a short payload is copied over its first bytes. */
  function WriteInline(s: Slot, data: seq<byte>): Slot {
    Inline(data + if |data| <= |SlotBytes(s)| then SlotBytes(s)[|data|..] else [])
  }

  function Added(img: Image, tag: uint32, dataType: uint32, count: uint32, data: seq<byte>): Image
    requires dataType < META_NUM_TYPES && |data| == PayloadSize(dataType, count)
    requires img.dataCount + Span(|data|) <= |img.arena| <= MAX_DATA_CAPACITY
  {
    var slot := if Span(|data|) == 0 then WriteInline(Inline([0, 0, 0, 0]), data) else Outline(img.dataCount);
    Place(img, |img.entries|, Entry(tag, dataType, count, slot), img.dataCount + Span(|data|), data)
  }

  /** Free the old span of entry `k` if its size class changes. */
  function Vacated(img: Image, k: nat, newSpan: nat): (r: Image)
    requires k < |img.entries| && Tiled(img)
    ensures |r.entries| == |img.entries| && r.arena == r.arena && |r.arena| == |img.arena|
  {
    var e := img.entries[k];
    if EntrySpan(e) == newSpan || EntrySpan(e) == 0 then img
    else Compact(img, e.slot.offset, EntrySpan(e))
  }

  predicate UpdateFits(img: Image, k: nat, newSpan: nat)
    requires k < |img.entries|
  {
    img.dataCount + newSpan - EntrySpan(img.entries[k]) <= |img.arena|
  }

  function Updated(img: Image, k: nat, count: uint32, data: seq<byte>): Image
    requires k < |img.entries| && Tiled(img)
    requires |data| == PayloadSize(img.entries[k].dataType, count)
    requires UpdateFits(img, k, Span(|data|))
  {
    var e, n := img.entries[k], Span(|data|);
    var freed := Vacated(img, k, n);
    assert freed.dataCount + (if n == EntrySpan(e) then 0 else n) <= |img.arena|;
    if n == 0 then
      Place(freed, k, e.(count := count, slot := WriteInline(e.slot, data)), freed.dataCount, data)
    else if n == EntrySpan(e) then
      Place(freed, k, e.(count := count), freed.dataCount, data)
    else
      Place(freed, k, e.(count := count, slot := Outline(freed.dataCount)), freed.dataCount + n, data)
  }

  /** The deletion path as the code has it, with its extra guard on the offsets it shifts. */
  function Deleted(img: Image, k: nat): Image
    requires k < |img.entries| && Tiled(img)
  {
    var e, n := img.entries[k], EntrySpan(img.entries[k]);
    if n == 0 then img.(entries := Without(img.entries, k))
    else Image(Without(ShiftAllGuarded(img.entries, e.slot.offset, n), k), img.dataCount - n,
               Squeeze(img.arena, e.slot.offset, n, img.dataCount))
  }

  // ----- what they keep -----

  /** Entries other than `k` denote in `b` what they denote in `a`. */
  ghost predicate SameOthers(a: Image, b: Image, k: nat)
    requires TiledExcept(a, k) && TiledExcept(b, k)
  {
    && |a.entries| <= |b.entries|
    && forall i :: 0 <= i < |a.entries| && i != k ==>
         ItemOf(b.entries[i], b.arena) == ItemOf(a.entries[i], a.arena)
  }

  /** Filling the hole with an entry apart from all others completes the tiling. */
  lemma PlaceKeeps(img: Image, k: nat, e: Entry, dataCount: nat, data: seq<byte>)
    requires TiledExcept(img, k) && k <= |img.entries|
    requires EntryOk(e) && |data| == PayloadSize(e.dataType, e.count)
    requires e.slot.Inline? ==> data <= e.slot.value
    requires img.dataCount <= dataCount <= |img.arena| && InArena(e, dataCount)
    requires forall i :: 0 <= i < |img.entries| && i != k ==> Apart(img.entries[i], e)
    ensures var r := Place(img, k, e, dataCount, data);
            && TiledExcept(r, |r.entries|)
            && SameOthers(img, r, k)
            && Payload(e, r.arena) == data
  {
    var r := Place(img, k, e, dataCount, data);
    forall i, j | 0 <= i < j < |r.entries|
      ensures Apart(r.entries[i], r.entries[j])
    {
      if i == k {
        assert Apart(img.entries[j], e);
      }
    }
    forall i | 0 <= i < |img.entries| && i != k
      ensures Payload(r.entries[i], r.arena) == Payload(img.entries[i], img.arena)
    {
      OverwriteElsewhere(img, img.entries[i], e, data);
    }
  }

  lemma OverwriteElsewhere(img: Image, other: Entry, e: Entry, data: seq<byte>)
    requires EntryOk(other) && EntryOk(e) && InArena(other, |img.arena|) && InArena(e, |img.arena|)
    requires |data| == PayloadSize(e.dataType, e.count)
    requires Apart(other, e)
    ensures e.slot.Outline? ==> Payload(other, Overwrite(img.arena, e.slot.offset, data)) == Payload(other, img.arena)
  {
    if e.slot.Outline? && other.slot.Outline? {
      var o, n, q := other.slot.offset, PayloadSize(other.dataType, other.count), e.slot.offset;
      if o + n <= q {
        OverwriteBefore(img.arena, q, data, o, o + n);
      } else {
        OverwriteAfter(img.arena, q, data, o, o + n);
      }
    }
  }

  lemma ApartAt(img: Image, i: nat, j: nat)
    requires Tiled(img) && i < |img.entries| && j < |img.entries| && i != j
    ensures Apart(img.entries[i], img.entries[j])
    ensures EntryOk(img.entries[i]) && InArena(img.entries[i], img.dataCount)
  {
    if j < i {
      assert Apart(img.entries[j], img.entries[i]);
    }
  }

  /** A span on either side of the squeezed bytes, once shifted, still lies in the arena. */
  lemma ShiftedOk(e: Entry, off: nat, n: nat, dataCount: nat)
    requires EntryOk(e) && InArena(e, dataCount) && 0 < n && n % 8 == 0 && off + n <= dataCount
    requires e.slot.Outline? ==> e.slot.offset + EntrySpan(e) <= off || off + n <= e.slot.offset
    ensures var e' := ShiftEntry(e, off, n);
            && e'.(slot := e.slot) == e
            && EntryOk(e') && InArena(e', dataCount - n)
            && (e.slot.Inline? ==> e' == e)
            && (e.slot.Outline? ==>
                  e'.slot == Outline(if e.slot.offset < off then e.slot.offset else e.slot.offset - n))
  {
  }

  lemma SqueezeReads(arena: seq<byte>, off: nat, n: nat, dataCount: nat, o: nat, p: nat)
    requires off + n <= dataCount <= |arena|
    requires o + p <= off || (off + n <= o && o + p <= dataCount)
    ensures var o' := if o + p <= off then o else o - n;
            Squeeze(arena, off, n, dataCount)[o'..o' + p] == arena[o..o + p]
  {
    var moved := arena[off + n..dataCount];
    if o + p <= off {
      OverwriteBefore(arena, off, moved, o, o + p);
    } else {
      OverwriteInside(arena, off, moved, o - n, o - n + p);
      SliceSlice(arena, off + n, dataCount, o - n - off, o - n - off + p);
    }
  }

  /** ... and the bytes it now denotes are the bytes it denoted before. */
  lemma ShiftedReads(e: Entry, off: nat, n: nat, dataCount: nat, arena: seq<byte>)
    requires dataCount <= |arena| && off + n <= dataCount && 0 < n
    requires EntryOk(e) && InArena(e, dataCount)
    requires e.slot.Outline? ==> e.slot.offset + EntrySpan(e) <= off || off + n <= e.slot.offset
    requires EntryOk(ShiftEntry(e, off, n)) && InArena(ShiftEntry(e, off, n), dataCount - n)
    ensures Payload(ShiftEntry(e, off, n), Squeeze(arena, off, n, dataCount)) == Payload(e, arena)
  {
    hide Span, Squeeze;
    if e.slot.Outline? {
      assert PayloadSize(e.dataType, e.count) <= EntrySpan(e);
      SqueezeReads(arena, off, n, dataCount, e.slot.offset, PayloadSize(e.dataType, e.count));
    }
  }

  /** Squeezing out the span of entry `k` leaves every other entry readable and apart. */
  lemma CompactKeeps(img: Image, k: nat)
    requires Tiled(img) && k < |img.entries| && img.entries[k].slot.Outline?
    ensures EntryOk(img.entries[k]) && InArena(img.entries[k], img.dataCount)
    ensures var r := Compact(img, img.entries[k].slot.offset, EntrySpan(img.entries[k]));
            && TiledExcept(r, k)
            && SameOthers(img, r, k)
            && r.entries[k] == img.entries[k]
            && TotalSpan(r.entries) == TotalSpan(img.entries)
  {
    var e := img.entries[k];
    assert EntryOk(e) && InArena(e, img.dataCount);
    hide Span, PayloadSize;
    var off, n := e.slot.offset, EntrySpan(e);
    var r := Compact(img, off, n);
    forall i | 0 <= i < |img.entries| && i != k
      ensures EntryOk(r.entries[i]) && InArena(r.entries[i], r.dataCount)
      ensures ItemOf(r.entries[i], r.arena) == ItemOf(img.entries[i], img.arena)
    {
      ApartAt(img, i, k);
      ShiftedOk(img.entries[i], off, n, img.dataCount);
      ShiftedReads(img.entries[i], off, n, img.dataCount, img.arena);
    }
    forall i, j | 0 <= i < j < |img.entries| && i != k && j != k
      ensures Apart(r.entries[i], r.entries[j])
    {
      ApartAt(img, i, k);
      ApartAt(img, j, k);
      ApartAt(img, i, j);
      ShiftedOk(img.entries[i], off, n, img.dataCount);
      ShiftedOk(img.entries[j], off, n, img.dataCount);
    }
    forall i | 0 <= i < |img.entries| ensures EntrySpan(r.entries[i]) == EntrySpan(img.entries[i]) {
    }
    TotalSpanSame(r.entries, img.entries);
  }

  // ----- the main results -----

  /** Adding appends to the abstract sequence and keeps the arena tiled. */
  lemma AddRefines(img: Image, tag: uint32, dataType: uint32, count: uint32, data: seq<byte>)
    requires Tiled(img) && dataType < META_NUM_TYPES && 0 < count
    requires |data| == PayloadSize(dataType, count)
    requires img.dataCount + Span(|data|) <= |img.arena|
    ensures var r := Added(img, tag, dataType, count, data);
            && Tiled(r)
            && Items(r) == Items(img) + [Item(tag, dataType, count, data)]
            && |r.arena| == |img.arena| && r.dataCount == img.dataCount + Span(|data|)
  {
    var r := Added(img, tag, dataType, count, data);
    var k := |img.entries|;
    var e := r.entries[k];
    assert EntrySpan(e) == Span(|data|);
    forall i | 0 <= i < k ensures Apart(img.entries[i], e) {
      assert InArena(img.entries[i], img.dataCount);
    }
    PlaceKeeps(img, k, e, r.dataCount, data);
    TotalSpanConcat(img.entries, [e]);
    assert TotalSpan([e]) == EntrySpan(e) + TotalSpan([]);
    assert Items(r) == Items(img) + [Item(tag, dataType, count, data)];
  }

  lemma VacatedKeeps(img: Image, k: nat, newSpan: nat)
    requires Tiled(img) && k < |img.entries|
    ensures var r := Vacated(img, k, newSpan);
            && TiledExcept(r, k) && SameOthers(img, r, k)
            && r.entries[k] == img.entries[k] && EntryOk(r.entries[k])
            && TotalSpan(r.entries) == TotalSpan(img.entries)
            && |r.arena| == |img.arena| && r.dataCount % 8 == 0
            && r.dataCount ==
               img.dataCount - if EntrySpan(img.entries[k]) == newSpan then 0 else EntrySpan(img.entries[k])
  {
    hide Span, PayloadSize;
    AlignedDifference(img.dataCount, EntrySpan(img.entries[k]));
    if EntrySpan(img.entries[k]) != newSpan && EntrySpan(img.entries[k]) != 0 {
      CompactKeeps(img, k);
    }
  }

  /** The entry an update places, and how much of the arena is used then. */
  lemma UpdatePlaces(img: Image, k: nat, count: uint32, data: seq<byte>) returns (e: Entry, dataCount: nat)
    requires Tiled(img) && k < |img.entries| && 0 < count
    requires |data| == PayloadSize(img.entries[k].dataType, count)
    requires UpdateFits(img, k, Span(|data|))
    ensures e.tag == img.entries[k].tag && e.dataType == img.entries[k].dataType && e.count == count
    ensures EntryOk(e) && EntrySpan(e) == Span(|data|) && (e.slot.Inline? ==> data <= e.slot.value)
    ensures var freed := Vacated(img, k, Span(|data|));
            && freed.dataCount <= dataCount == img.dataCount + Span(|data|) - EntrySpan(img.entries[k]) <= |img.arena|
            && InArena(e, dataCount) && (e.slot.Outline? ==> e.slot.offset + |data| <= |freed.arena|)
            && Updated(img, k, count, data) == Place(freed, k, e, dataCount, data)
            && forall i :: 0 <= i < |freed.entries| && i != k ==> Apart(freed.entries[i], e)
  {
    hide Span, PayloadSize, Place, Compact;
    var n := Span(|data|);
    var was, freed := img.entries[k], Vacated(img, k, n);
    VacatedKeeps(img, k, n);
    assert EntryOk(was) && InArena(was, img.dataCount);
    dataCount := if n == EntrySpan(was) then freed.dataCount else freed.dataCount + n;
    e := was.(count := count, slot := if n == 0 then WriteInline(was.slot, data)
                                       else if n == EntrySpan(was) then was.slot else Outline(freed.dataCount));
    forall i | 0 <= i < |freed.entries| && i != k ensures Apart(freed.entries[i], e) {
      assert EntryOk(freed.entries[i]) && InArena(freed.entries[i], freed.dataCount);
      if n == EntrySpan(was) {
        ApartAt(img, i, k);
      }
    }
  }

  lemma UpdateTiles(img: Image, k: nat, count: uint32, data: seq<byte>)
    requires Tiled(img) && k < |img.entries| && 0 < count
    requires |data| == PayloadSize(img.entries[k].dataType, count)
    requires UpdateFits(img, k, Span(|data|))
    ensures var r := Updated(img, k, count, data);
            && Tiled(r) && |r.entries| == |img.entries| && |r.arena| == |img.arena|
            && r.dataCount == img.dataCount + Span(|data|) - EntrySpan(img.entries[k])
            && ItemOf(r.entries[k], r.arena) == Item(img.entries[k].tag, img.entries[k].dataType, count, data)
            && forall i :: 0 <= i < |img.entries| && i != k ==>
                 ItemOf(r.entries[i], r.arena) == ItemOf(img.entries[i], img.arena)
  {
    hide Span, PayloadSize, Updated, Vacated, EntrySpan, Payload;
    var n := Span(|data|);
    var freed := Vacated(img, k, n);
    VacatedKeeps(img, k, n);
    var e, dataCount := UpdatePlaces(img, k, count, data);
    PlaceKeeps(freed, k, e, dataCount, data);
    TotalSpanReplace(freed.entries, k, e);
  }

  /**
   Updating replaces one element of the abstract sequence, wherever the payload moves: within
   the entry, into the arena, out of it, or to the arena's end with every later offset shifted.
   */
  lemma UpdateRefines(img: Image, k: nat, count: uint32, data: seq<byte>)
    requires Tiled(img) && k < |img.entries| && 0 < count
    requires |data| == PayloadSize(img.entries[k].dataType, count)
    requires UpdateFits(img, k, Span(|data|))
    ensures var r := Updated(img, k, count, data);
            && Tiled(r)
            && Items(r) == Items(img)[k := Items(img)[k].(count := count, payload := data)]
            && |r.arena| == |img.arena|
            && r.dataCount == img.dataCount + Span(|data|) - EntrySpan(img.entries[k])
  {
    UpdateTiles(img, k, count, data);
  }

  /** The condition under which the deletion guard lets every later offset be shifted. */
  predicate DeleteSafe(img: Image, k: nat)
    requires k < |img.entries|
  {
    var e := img.entries[k];
    e.slot.Inline? || e.slot.offset != 0 || forall j :: 0 <= j < |img.entries| && j != k ==> img.entries[j].slot.Inline?
  }

  lemma GuardIsIdle(img: Image, k: nat)
    requires Tiled(img) && k < |img.entries| && img.entries[k].slot.Outline? && DeleteSafe(img, k)
    ensures var off, n := img.entries[k].slot.offset, EntrySpan(img.entries[k]);
            ShiftAllGuarded(img.entries, off, n) == ShiftAll(img.entries, off, n)
  {
    var off, n := img.entries[k].slot.offset, EntrySpan(img.entries[k]);
    assert EntryOk(img.entries[k]);
    forall i | 0 <= i < |img.entries|
      ensures ShiftEntryGuarded(img.entries[i], off, n) == ShiftEntry(img.entries[i], off, n)
    {
      if i != k {
        ApartAt(img, i, k);
      }
    }
  }

  /** Dropping the entry in the hole from the table completes the tiling. */
  lemma DropHole(mid: Image, k: nat)
    requires TiledExcept(mid, k) && k < |mid.entries| && |mid.arena| <= MAX_DATA_CAPACITY
    requires TotalSpan(mid.entries) - EntrySpan(mid.entries[k]) == mid.dataCount
    ensures Tiled(mid.(entries := Without(mid.entries, k)))
  {
    var es := Without(mid.entries, k);
    forall i, j | 0 <= i < j < |es| ensures Apart(es[i], es[j]) {
      assert Apart(mid.entries[if i < k then i else i + 1], mid.entries[if j < k then j else j + 1]);
    }
    TotalSpanSplit(mid.entries, k);
    TotalSpanConcat(mid.entries[..k], mid.entries[k + 1..]);
  }

  lemma DeleteKeeps(img: Image, k: nat)
    requires Tiled(img) && k < |img.entries| && DeleteSafe(img, k)
    ensures Tiled(Deleted(img, k))
    ensures Items(Deleted(img, k)) == Without(Items(img), k)
  {
    var e, r := img.entries[k], Deleted(img, k);
    assert EntryOk(e);
    var mid := if e.slot.Inline? then img else Compact(img, e.slot.offset, EntrySpan(e));
    if e.slot.Outline? {
      CompactKeeps(img, k);
      GuardIsIdle(img, k);
    }
    assert r == mid.(entries := Without(mid.entries, k));
    hide Span, PayloadSize, Compact, Deleted, Squeeze, ShiftAll, ShiftAllGuarded;
    DropHole(mid, k);
    OthersRemain(img, mid, r, k);
  }

  /** Without item `k`, the others read what they did. */
  lemma OthersRemain(img: Image, mid: Image, r: Image, k: nat)
    requires Tiled(img) && Tiled(r) && k < |img.entries| && TiledExcept(mid, k) && SameOthers(img, mid, k)
    requires |mid.entries| == |img.entries| && r == mid.(entries := Without(mid.entries, k))
    ensures Items(r) == Without(Items(img), k)
  {
    hide Payload, Span, PayloadSize;
    forall i | 0 <= i < |r.entries| ensures Items(r)[i] == Without(Items(img), k)[i] {
      assert r.entries[i] == mid.entries[if i < k then i else i + 1];
    }
  }

  lemma NeverAtZero(e: Entry, n: nat)
    requires EntryOk(e) && 0 < n && (e.slot.Outline? ==> n <= e.slot.offset)
    ensures 0 !in Cells(ShiftEntryGuarded(e, 0, n))
  {
  }

  /** Behind a first arena item that is not the only one stands another. */
  lemma NeighbourOf(img: Image, k: nat) returns (j: nat)
    requires Tiled(img) && k < |img.entries| && !DeleteSafe(img, k)
    ensures j < |img.entries| && j != k && img.entries[j].slot == Outline(EntrySpan(img.entries[k]))
  {
    hide Span, PayloadSize, DeleteSafe;
    var n := EntrySpan(img.entries[k]);
    var o := OtherOutline(img, k);
    ApartAt(img, o, k);
    ApartAt(img, k, o);
    TiledCovers(img, n);
    j :| 0 <= j < |img.entries| && n in Cells(img.entries[j]);
    assert n !in Cells(img.entries[k]);
    ApartAt(img, j, k);
  }

  lemma OtherOutline(img: Image, k: nat) returns (j: nat)
    requires k < |img.entries| && !DeleteSafe(img, k)
    ensures img.entries[k].slot == Outline(0)
    ensures j < |img.entries| && j != k && img.entries[j].slot.Outline?
  {
    j :| 0 <= j < |img.entries| && j != k && img.entries[j].slot.Outline?;
  }

  /**
   Deleting a first arena item that is not the only one: its neighbour keeps its old offset although
   the bytes there moved to 0, and the arena is no longer tiled.
   */
  lemma DeleteBreaks(img: Image, k: nat) returns (j: nat)
    requires Tiled(img) && k < |img.entries| && !DeleteSafe(img, k)
    ensures j < |img.entries| && j != k && EntryOk(img.entries[j])
    ensures var n, p := EntrySpan(img.entries[k]), PayloadSize(img.entries[j].dataType, img.entries[j].count);
            var r := Deleted(img, k);
            && 0 < n && n + p <= img.dataCount <= |img.arena| == |r.arena|
            && img.entries[j].slot == Outline(n) && r.arena[..p] == img.arena[n..n + p]
            && r.entries[if j < k then j else j - 1] == img.entries[j]
    ensures !Tiled(Deleted(img, k))
  {
    hide Tiled, DeleteSafe;
    j := NeighbourOf(img, k);
    var o := OtherOutline(img, k);
    StaleNeighbour(img, k, j);
    NoneAtZero(img, k);
    ApartAt(img, j, k);
    hide Deleted, EntryOk, EntrySpan, PayloadSize;
  }

  lemma StaleNeighbour(img: Image, k: nat, j: nat)
    requires Tiled(img) && k < |img.entries| && j < |img.entries| && j != k && img.entries[k].slot == Outline(0)
    requires img.entries[j].slot == Outline(EntrySpan(img.entries[k]))
    ensures EntryOk(img.entries[j])
    ensures var n, p := EntrySpan(img.entries[k]), PayloadSize(img.entries[j].dataType, img.entries[j].count);
            var r := Deleted(img, k);
            && 0 < n && n + p <= img.dataCount <= |img.arena| == |r.arena| && r.arena[..p] == img.arena[n..n + p]
            && |r.entries| == |img.entries| - 1 && r.entries[if j < k then j else j - 1] == img.entries[j]
  {
    ApartAt(img, j, k);
    ApartAt(img, k, j);
    SpanCovers(img.entries[j]);
    TiledWithin(img);
    hide Tiled, Span, PayloadSize, Squeeze;
    var n, p := EntrySpan(img.entries[k]), PayloadSize(img.entries[j].dataType, img.entries[j].count);
    SqueezeReads(img.arena, 0, n, img.dataCount, n, p);
    assert Squeeze(img.arena, 0, n, img.dataCount)[..p] == Squeeze(img.arena, 0, n, img.dataCount)[0..p];
    assert ShiftEntryGuarded(img.entries[j], 0, n) == img.entries[j];
  }

  lemma TiledWithin(img: Image)
    requires Tiled(img)
    ensures img.dataCount <= |img.arena|
  {
  }

  lemma SpanCovers(e: Entry)
    requires EntryOk(e)
    ensures e.slot.Outline? ==> PayloadSize(e.dataType, e.count) <= EntrySpan(e)
  {
  }

  lemma NoneAtZero(img: Image, k: nat)
    requires Tiled(img) && k < |img.entries| && !DeleteSafe(img, k)
    ensures !Tiled(Deleted(img, k))
  {
    hide Span, PayloadSize, DeleteSafe;
    var e, r := img.entries[k], Deleted(img, k);
    var n := EntrySpan(e);
    var j := OtherOutline(img, k);
    ApartAt(img, k, j);
    ApartAt(img, j, k);
    assert r.dataCount > 0;
    forall i | 0 <= i < |r.entries| ensures 0 !in Cells(r.entries[i]) {
      var i0 := if i < k then i else i + 1;
      ApartAt(img, i0, k);
      NeverAtZero(img.entries[i0], n);
    }
    if Tiled(r) {
      TiledCovers(r, 0);
    }
  }

  /**
   Deletion keeps the arena tiled, and then removes exactly one item, if and only if the item is
   inline, or does not start the arena, or is the only one in the arena.
   */
  lemma DeleteRefinesIff(img: Image, k: nat)
    requires Tiled(img) && k < |img.entries|
    ensures Tiled(Deleted(img, k)) <==> DeleteSafe(img, k)
    ensures DeleteSafe(img, k) ==> Items(Deleted(img, k)) == Without(Items(img), k)
  {
    if DeleteSafe(img, k) {
      DeleteKeeps(img, k);
    } else {
      NoneAtZero(img, k);
    }
  }

  /** Two five-byte items in an arena of 16 bytes. */
  function TwoItems(): (img: Image)
  {
    var blank := Image([], 0, seq(16, _ => 0));
    Added(Added(blank, 1, 0, 5, [1, 2, 3, 4, 5]), 2, 0, 5, [6, 7, 8, 9, 10])
  }

  lemma TwoItemsAre()
    ensures Tiled(TwoItems()) && TwoItems().dataCount == 16
    ensures TwoItems().entries == [Entry(1, 0, 5, Outline(0)), Entry(2, 0, 5, Outline(8))]
  {
    var blank := Image([], 0, seq(16, _ => 0));
    EmptyTiled(blank);
    AddRefines(blank, 1, 0, 5, [1, 2, 3, 4, 5]);
    var one := Added(blank, 1, 0, 5, [1, 2, 3, 4, 5]);
    hide Tiled, Items;
    assert one.entries == [Entry(1, 0, 5, Outline(0))] && one.dataCount == 8;
    AddRefines(one, 2, 0, 5, [6, 7, 8, 9, 10]);
  }

  /** Deleting the first leaves the second at offset 8 in an arena of which 8 bytes are used. */
  lemma StaleOffset()
    ensures Tiled(TwoItems()) && |TwoItems().entries| == 2 && !DeleteSafe(TwoItems(), 0)
    ensures var r := Deleted(TwoItems(), 0);
            |r.entries| == 1 && r.entries[0].slot == Outline(8) && r.dataCount == 8 && !Tiled(r)
  {
    TwoItemsAre();
    hide TwoItems;
    assert !InArena(Deleted(TwoItems(), 0).entries[0], 8);
  }
}
