/**
 The string codec of camera metadata: the physical image, header, used entries and used arena
 bytes, copied out and back.
 */
module MetadataString {
  import opened Bytes
  import opened MetadataLayout
  import opened MetadataStore

  // ----- what is written -----

  function HeaderBytes(h: Header): (b: seq<byte>)
    ensures |b| == HEADER_SIZE
  {
    LE32(h.version) + LE32(h.size) + LE32(h.itemCount) + LE32(h.itemCapacity)
    + LE32(h.itemsStart) + LE32(h.dataCount) + LE32(h.dataCapacity) + LE32(h.dataStart)
  }

  function EntryBytes(e: Entry): seq<byte> {
    LE32(e.tag) + LE32(e.dataType) + LE32(e.count) + SlotBytes(e.slot)
  }

  /** Where entry `i` stands. */
  function EntryPos(i: nat): nat {
    HEADER_SIZE + ENTRY_SIZE * i
  }

  /** The entries stand one behind the other. */
  ghost predicate EntriesAt(s: seq<byte>, es: seq<Entry>) {
    EntryPos(|es|) <= |s| &&
    forall i :: 0 <= i < |es| ==> s[EntryPos(i)..EntryPos(i) + ENTRY_SIZE] == EntryBytes(es[i])
  }

  lemma EntriesNext(s: seq<byte>, es: seq<Entry>, e: Entry)
    requires EntriesAt(s, es) && |s| == EntryPos(|es|) && |EntryBytes(e)| == ENTRY_SIZE
    ensures EntriesAt(s + EntryBytes(e), es + [e]) && |s + EntryBytes(e)| == EntryPos(|es| + 1)
  {
    hide EntryBytes;
    var t, fs := s + EntryBytes(e), es + [e];
    forall i | 0 <= i < |fs| ensures t[EntryPos(i)..EntryPos(i) + ENTRY_SIZE] == EntryBytes(fs[i]) {
      if i < |es| {
        assert t[EntryPos(i)..EntryPos(i) + ENTRY_SIZE] == s[EntryPos(i)..EntryPos(i) + ENTRY_SIZE];
      }
    }
  }

  lemma EntriesStay(s: seq<byte>, es: seq<Entry>, more: seq<byte>)
    requires EntriesAt(s, es)
    ensures EntriesAt(s + more, es)
  {
    hide EntryBytes;
    forall i | 0 <= i < |es|
      ensures (s + more)[EntryPos(i)..EntryPos(i) + ENTRY_SIZE] == s[EntryPos(i)..EntryPos(i) + ENTRY_SIZE]
    {
    }
  }

  method EncodeToString(b: MetadataBuffer) returns (s: seq<byte>)
    requires b.Valid()
    ensures |s| == EntryPos(b.itemCount) + b.dataCount
    ensures s[..HEADER_SIZE] == HeaderBytes(b.HeaderOf())
    ensures EntriesAt(s, b.items[..b.itemCount])
    ensures s[EntryPos(b.itemCount)..] == b.arena[..b.dataCount]
  {
    hide HeaderBytes, EntryBytes, EntriesAt, Tiled, Items, EntryOk, InArena, EntrySpan, ItemDataSize, Align8;
    b.WithinCapacity();
    s := HeaderBytes(b.HeaderOf());
    NoEntries(s);
    var i: uint32 := 0;
    assert b.items[..0] == [];
    while i < b.itemCount
      invariant i <= b.itemCount && |s| == EntryPos(i)
      invariant s[..HEADER_SIZE] == HeaderBytes(b.HeaderOf()) && EntriesAt(s, b.items[..i])
    {
      b.ItemFacts(i);
      EntryBytesParts(b.items[i]);
      EntriesNext(s, b.items[..i], b.items[i]);
      assert b.items[..i + 1] == b.items[..i] + [b.items[i]];
      s := s + EntryBytes(b.items[i]);
      i := i + 1;
    }
    if b.dataCount != 0 {
      EntriesStay(s, b.items[..i], b.arena[..b.dataCount]);
      s := s + b.arena[..b.dataCount];
    }
  }

  lemma NoEntries(s: seq<byte>)
    requires |s| == HEADER_SIZE
    ensures EntriesAt(s, []) && EntryPos(0) == HEADER_SIZE
  {
  }

  lemma EntryBytesParts(e: Entry)
    requires EntryOk(e)
    ensures var b := EntryBytes(e);
            && |b| == ENTRY_SIZE
            && b[0..4] == LE32(e.tag) && b[4..8] == LE32(e.dataType)
            && b[8..12] == LE32(e.count) && b[12..16] == SlotBytes(e.slot)
  {
    hide LE32, EntrySpan;
  }

  lemma HeaderBytesParts(h: Header)
    ensures var b := HeaderBytes(h);
            && b[0..4] == LE32(h.version) && b[4..8] == LE32(h.size)
            && b[8..12] == LE32(h.itemCount) && b[12..16] == LE32(h.itemCapacity)
            && b[16..20] == LE32(h.itemsStart) && b[20..24] == LE32(h.dataCount)
            && b[24..28] == LE32(h.dataCapacity) && b[28..32] == LE32(h.dataStart)
  {
    hide LE32;
  }

  // ----- what is read -----

  function HeaderAt(m: seq<byte>): Header
    requires HEADER_SIZE <= |m|
  {
    Header(WordAt(m, 0), WordAt(m, 4), WordAt(m, 8), WordAt(m, 12),
           WordAt(m, 16), WordAt(m, 20), WordAt(m, 24), WordAt(m, 28))
  }

  /** The entry at `pos`, its union read as the type and count call for. */
  function EntryAt(m: seq<byte>, pos: nat): Entry
    requires pos + ENTRY_SIZE <= |m|
  {
    var e := Entry(WordAt(m, pos), WordAt(m, pos + 4), WordAt(m, pos + 8), Inline(m[pos + 12..pos + 16]));
    if EntrySpan(e) == 0 then e else e.(slot := Outline(WordAt(m, pos + 12)))
  }

  /** The header's regions, against the size of the buffer allocated for its capacities. */
  predicate RegionsOk(h: Header, actual: uint32) {
    && HEADER_SIZE <= h.itemsStart < actual
    && HEADER_SIZE <= h.dataStart < actual
    && h.itemCount * ENTRY_SIZE <= actual - h.itemsStart
    && h.dataCount <= actual - h.dataStart
    && h.itemCapacity * ENTRY_SIZE <= actual - h.itemsStart
  }

  /** The layout this model's separate item table and arena can hold. */
  predicate OwnLayout(h: Header) {
    && h.itemsStart == HEADER_SIZE && h.dataStart == HEADER_SIZE + ENTRY_SIZE * h.itemCapacity
    && h.itemCount <= h.itemCapacity && h.dataCount <= h.dataCapacity
  }

  /** Entries are only reached when the recorded size is that of the two regions. */
  predicate TableLocatable(h: Header) {
    h.itemCount == 0 || h.dataStart == 0 || h.size == (h.dataCapacity + h.dataStart) % 0x1_0000_0000
  }

  datatype Decoding = Refused | Displaced | Accepted

  /** `totalLen` is what the entry checks compare against: the capacity of the string. */
  predicate EntriesOk(m: seq<byte>, n: nat) {
    EntryPos(n) <= |m| &&
    forall i :: 0 <= i < n ==> KnownType(EntryAt(m, EntryPos(i)))
                               && PayloadSize(EntryAt(m, EntryPos(i)).dataType, EntryAt(m, EntryPos(i)).count) <= |m|
  }

  predicate HeaderAcceptable(m: seq<byte>) {
    && HEADER_SIZE <= |m|
    && HeaderAt(m).itemCapacity <= MAX_ITEM_CAPACITY
    && AlignUint32(HeaderAt(m).dataCapacity) <= MAX_DATA_CAPACITY
    && RegionsOk(HeaderAt(m), MemoryRequired(HeaderAt(m).itemCapacity, AlignUint32(HeaderAt(m).dataCapacity))
                              % 0x1_0000_0000)
  }

  /** Read the entries one by one, up to the first that does not fit or has an unknown type. */
  method ReadTable(m: seq<byte>, h: Header, r: MetadataBuffer) returns (ok: bool)
    requires HEADER_SIZE <= |m| && r.HeaderOf() == h && h.itemCount <= h.itemCapacity == r.items.Length
    modifies r.items
    ensures ok <==> EntriesOk(m, h.itemCount) && TableLocatable(h)
    ensures ok ==> forall i :: 0 <= i < h.itemCount ==> r.items[i] == EntryAt(m, EntryPos(i))
  {
    hide HeaderAt, EntryAt, RegionsOk, AlignUint32, MemoryRequired, PayloadSize;
    var pos, i: uint32 := HEADER_SIZE, 0;
    while i < h.itemCount
      invariant i <= h.itemCount && pos == EntryPos(i) && EntriesOk(m, i)
      invariant forall j :: 0 <= j < i ==> r.items[j] == EntryAt(m, EntryPos(j))
      invariant i > 0 ==> TableLocatable(h)
    {
      if |m| < pos + ENTRY_SIZE {
        assert !EntriesOk(m, h.itemCount);
        return false;
      }
      if !r.ItemsReachable() {
        return false;
      }
      r.items[i] := EntryAt(m, pos);
      if !KnownType(r.items[i]) || |m| < PayloadSize(r.items[i].dataType, r.items[i].count) {
        return false;
      }
      pos, i := pos + ENTRY_SIZE, i + 1;
    }
    ok := true;
  }

  /**
   `m` is the string's whole allocation. A string that ends inside the arena bytes is accepted
   with a blank arena: the check that notices it reports success.
   */
  method DecodeFromString(m: seq<byte>) returns (outcome: Decoding, b: MetadataBuffer?)
    ensures !HeaderAcceptable(m) ==> outcome == Refused
    ensures HeaderAcceptable(m) ==> (outcome == Displaced <==> !OwnLayout(HeaderAt(m)))
    ensures HeaderAcceptable(m) && OwnLayout(HeaderAt(m)) ==>
              (outcome == Accepted <==> EntriesOk(m, HeaderAt(m).itemCount) && TableLocatable(HeaderAt(m)))
    ensures outcome == Accepted <==> b != null
    ensures outcome == Accepted ==>
              && fresh(b) && fresh(b.items) && fresh(b.arena)
              && b.HeaderOf() == HeaderAt(m) && b.items.Length == b.itemCapacity && b.arena.Length == b.dataCapacity
              && (forall i :: 0 <= i < b.itemCount ==> b.items[i] == EntryAt(m, EntryPos(i)))
              && var start := EntryPos(b.itemCount);
                 if start + b.dataCount <= |m| then b.arena[..b.dataCount] == m[start..start + b.dataCount]
                 else b.arena[..] == seq(b.dataCapacity, _ => 0)
  {
    hide HeaderAt, EntryAt, RegionsOk, AlignUint32, MemoryRequired, PayloadSize;
    outcome, b := Refused, null;
    if |m| < HEADER_SIZE {
      return;
    }
    var h := HeaderAt(m);
    if h.itemCapacity > MAX_ITEM_CAPACITY || AlignUint32(h.dataCapacity) > MAX_DATA_CAPACITY {
      return;
    }
    var actual := MemoryRequired(h.itemCapacity, AlignUint32(h.dataCapacity)) % 0x1_0000_0000;
    if !RegionsOk(h, actual) {
      return;
    }
    if !OwnLayout(h) {
      outcome := Displaced;
      return;
    }
    var r := new MetadataBuffer.FromHeader(h);
    var ok := ReadTable(m, h, r);
    if !ok {
      return;
    }
    var pos := EntryPos(h.itemCount);
    if h.dataCount != 0 && pos + h.dataCount <= |m| {
      CopyIn(r.arena, 0, m[pos..pos + h.dataCount]);
    }
    outcome, b := Accepted, r;
  }

  // ----- round trip -----

  lemma HeaderReadsBack(m: seq<byte>, h: Header)
    requires HEADER_SIZE <= |m| && m[..HEADER_SIZE] == HeaderBytes(h)
    ensures HeaderAt(m) == h
  {
    HeaderBytesParts(h);
    LE32RoundTrip(h.version);
    LE32RoundTrip(h.size);
    LE32RoundTrip(h.itemCount);
    LE32RoundTrip(h.itemCapacity);
    LE32RoundTrip(h.itemsStart);
    LE32RoundTrip(h.dataCount);
    LE32RoundTrip(h.dataCapacity);
    LE32RoundTrip(h.dataStart);
    hide LE32, FromLE, HeaderBytes;
    var b := HeaderBytes(h);
    PrefixSlices(m, b, 0);
    PrefixSlices(m, b, 16);
  }

  lemma PrefixSlices(m: seq<byte>, b: seq<byte>, k: nat)
    requires k + 16 <= |b| <= |m| && m[..|b|] == b
    ensures m[k..k + 4] == b[k..k + 4] && m[k + 4..k + 8] == b[k + 4..k + 8]
    ensures m[k + 8..k + 12] == b[k + 8..k + 12] && m[k + 12..k + 16] == b[k + 12..k + 16]
  {
    SliceSlice(m, 0, |b|, k, k + 4);
    SliceSlice(m, 0, |b|, k + 4, k + 8);
    SliceSlice(m, 0, |b|, k + 8, k + 12);
    SliceSlice(m, 0, |b|, k + 12, k + 16);
  }

  lemma EntryReadsBack(m: seq<byte>, pos: nat, e: Entry)
    requires EntryOk(e) && pos + ENTRY_SIZE <= |m| && m[pos..pos + ENTRY_SIZE] == EntryBytes(e)
    ensures EntryAt(m, pos) == e
  {
    EntryBytesParts(e);
    LE32RoundTrip(e.tag);
    LE32RoundTrip(e.dataType);
    LE32RoundTrip(e.count);
    if e.slot.Outline? {
      LE32RoundTrip(e.slot.offset);
    }
    hide LE32, FromLE, EntryBytes, PayloadSize, Span;
    SliceSlice(m, pos, pos + ENTRY_SIZE, 0, 4);
    SliceSlice(m, pos, pos + ENTRY_SIZE, 4, 8);
    SliceSlice(m, pos, pos + ENTRY_SIZE, 8, 12);
    SliceSlice(m, pos, pos + ENTRY_SIZE, 12, 16);
    assert EntrySpan(e) == EntrySpan(e.(slot := Inline(SlotBytes(e.slot))));
  }

  /** The header of a valid buffer passes every check, but for an arena of no capacity at all. */
  lemma ValidHeaderAcceptable(b: MetadataBuffer)
    requires b.Valid()
    ensures var h := b.HeaderOf();
            && OwnLayout(h) && TableLocatable(h)
            && h.itemCapacity <= MAX_ITEM_CAPACITY && AlignUint32(h.dataCapacity) <= MAX_DATA_CAPACITY
            && (RegionsOk(h, MemoryRequired(h.itemCapacity, AlignUint32(h.dataCapacity)) % 0x1_0000_0000)
                <==> h.dataCapacity > 0)
  {
    b.WithinCapacity();
    b.ReachableIffAligned();
    hide Tiled;
    MemoryOf(b.itemCapacity, b.dataCapacity);
  }

  lemma MemoryOf(itemCapacity: uint32, dataCapacity: uint32)
    requires itemCapacity <= MAX_ITEM_CAPACITY && dataCapacity <= MAX_DATA_CAPACITY
    ensures AlignUint32(dataCapacity) == Align8(dataCapacity) <= MAX_DATA_CAPACITY
    ensures MemoryRequired(itemCapacity, Align8(dataCapacity))
         == HEADER_SIZE + ENTRY_SIZE * itemCapacity + Align8(dataCapacity) < 0x1_0000_0000
  {
    Regions(itemCapacity, Align8(dataCapacity));
    AlignUnique(Align8(dataCapacity), Align8(dataCapacity));
    MaxAligned(dataCapacity);
    hide Align8, MemoryRequired;
  }

  lemma MaxAligned(n: nat)
    requires n <= MAX_DATA_CAPACITY
    ensures Align8(n) <= MAX_DATA_CAPACITY
  {
  }

  /**
   Encoding a buffer to a string and decoding it, whatever slack the string's allocation has,
   restores header, entries and used arena bytes, unless the arena has no capacity: that image,
   and no other, is refused.
   */
  method StringRoundTrip(b: MetadataBuffer, slack: seq<byte>) returns (outcome: Decoding, r: MetadataBuffer?)
    requires b.Valid()
    ensures outcome == if b.dataCapacity == 0 then Refused else Accepted
    ensures outcome == Accepted ==>
              && r != null && r.Valid()
              && r.HeaderOf() == b.HeaderOf() && r.items[..r.itemCount] == b.items[..b.itemCount]
              && r.arena[..r.dataCount] == b.arena[..b.dataCount]
              && r.Contents() == b.Contents()
  {
    hide Tiled, Items, EntrySpan, HeaderAt, EntryAt, RegionsOk, MemoryRequired, AlignUint32, HeaderBytes, EntriesAt,
      EntriesOk;
    ValidHeaderAcceptable(b);
    b.WithinCapacity();
    var s := EncodeToString(b);
    var m := s + slack;
    var n := b.itemCount;
    EncodedReads(b, s, slack);
    outcome, r := DecodeFromString(m);
    if outcome == Accepted {
      assert r.items[..n] == b.items[..n];
      assert r.Img().arena[..b.dataCount] == b.Img().arena[..b.dataCount];
      SamePrefixSameItems(r.Img(), b.Img());
    }
  }

  /** What the decoder finds in an encoded string: the header, the entries and the arena bytes. */
  lemma EncodedReads(b: MetadataBuffer, s: seq<byte>, slack: seq<byte>)
    requires b.Valid() && |s| == EntryPos(b.itemCount) + b.dataCount && s[..HEADER_SIZE] == HeaderBytes(b.HeaderOf())
    requires EntriesAt(s, b.items[..b.itemCount]) && s[EntryPos(b.itemCount)..] == b.arena[..b.dataCount]
    ensures var m, n := s + slack, b.itemCount;
            && HEADER_SIZE <= |s| <= |m| && HeaderAt(m) == b.HeaderOf() && EntriesOk(m, n)
            && (forall i :: 0 <= i < n ==> EntryAt(m, EntryPos(i)) == b.items[i])
            && m[EntryPos(n)..EntryPos(n) + b.dataCount] == b.arena[..b.dataCount]
  {
    hide Tiled, Items, EntrySpan, PayloadSize, HeaderAt, EntryAt, HeaderBytes, EntryBytes;
    b.WithinCapacity();
    var m, n := s + slack, b.itemCount;
    assert m[..HEADER_SIZE] == s[..HEADER_SIZE];
    HeaderReadsBack(m, b.HeaderOf());
    forall i | 0 <= i < n
      ensures EntryAt(m, EntryPos(i)) == b.items[i] && KnownType(b.items[i])
              && PayloadSize(b.items[i].dataType, b.items[i].count) <= |m|
    {
      b.ItemFacts(i);
      var pos := EntryPos(i);
      assert m[pos..pos + ENTRY_SIZE] == s[pos..pos + ENTRY_SIZE] == EntryBytes(b.items[i]);
      EntryReadsBack(m, pos, b.items[i]);
      PayloadWithin(b.items[i]);
    }
    assert m[EntryPos(n)..EntryPos(n) + b.dataCount] == s[EntryPos(n)..];
  }

  lemma PayloadWithin(e: Entry)
    requires EntryOk(e)
    ensures PayloadSize(e.dataType, e.count) <= 4 || PayloadSize(e.dataType, e.count) <= EntrySpan(e)
  {
  }
}
