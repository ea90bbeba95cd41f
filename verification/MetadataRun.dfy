/**
 Whole runs: a buffer driven by any sequence of additions, updates and deletions behaves like a
 plain list of items whose only limits are two numbers, wherever its payloads happen to lie.
 */
module MetadataRun {
  import opened Bytes
  import opened MetadataLayout
  import opened MetadataImage

  datatype Op =
    | AddOp(tag: uint32, dataType: uint32, count: uint32, data: seq<byte>)
    | UpdateOp(k: nat, count: uint32, data: seq<byte>)
    | DeleteOp(k: nat)

  predicate WellSized(dataType: uint32, count: uint32, data: seq<byte>) {
    dataType < META_NUM_TYPES && 0 < count && |data| == PayloadSize(dataType, count)
  }

  /** One operation on the buffer; a refused one changes nothing. */
  function Step(img: Image, itemCapacity: nat, op: Op): Image
    requires Tiled(img)
  {
    match op
    case AddOp(tag, dataType, count, data) =>
      if WellSized(dataType, count, data) && |img.entries| < itemCapacity
         && img.dataCount + Span(|data|) <= |img.arena|
      then Added(img, tag, dataType, count, data) else img
    case UpdateOp(k, count, data) =>
      if k < |img.entries| && WellSized(img.entries[k].dataType, count, data) && UpdateFits(img, k, Span(|data|))
      then Updated(img, k, count, data) else img
    case DeleteOp(k) =>
      if k < |img.entries| then Deleted(img, k) else img
  }

  function TotalPayload(items: seq<Item>): nat {
    if items == [] then 0 else Span(|items[0].payload|) + TotalPayload(items[1..])
  }

  /** The same operation on the plain list. */
  function ListStep(items: seq<Item>, itemCapacity: nat, dataCapacity: nat, op: Op): seq<Item> {
    match op
    case AddOp(tag, dataType, count, data) =>
      if WellSized(dataType, count, data) && |items| < itemCapacity
         && TotalPayload(items) + Span(|data|) <= dataCapacity
      then items + [Item(tag, dataType, count, data)] else items
    case UpdateOp(k, count, data) =>
      if k < |items| && WellSized(items[k].dataType, count, data)
         && TotalPayload(items) - Span(|items[k].payload|) + Span(|data|) <= dataCapacity
      then items[k := items[k].(count := count, payload := data)] else items
    case DeleteOp(k) =>
      if k < |items| then Without(items, k) else items
  }

  lemma {:induction false} TotalPayloadIsTotalSpan(es: seq<Entry>, items: seq<Item>)
    requires |es| == |items|
    requires forall i :: 0 <= i < |es| ==> EntrySpan(es[i]) == Span(|items[i].payload|)
    ensures TotalPayload(items) == TotalSpan(es)
  {
    if es == [] {
    } else {
      TotalPayloadIsTotalSpan(es[1..], items[1..]);
    }
  }

  lemma ItemsSpans(img: Image)
    requires Tiled(img)
    ensures forall i :: 0 <= i < |img.entries| ==>
              EntrySpan(img.entries[i]) == Span(|Items(img)[i].payload|)
    ensures TotalPayload(Items(img)) == img.dataCount
  {
    forall i | 0 <= i < |img.entries|
      ensures EntrySpan(img.entries[i]) == Span(|Items(img)[i].payload|)
    {
      assert EntryOk(img.entries[i]) && InArena(img.entries[i], img.dataCount);
    }
    TotalPayloadIsTotalSpan(img.entries, Items(img));
  }

  predicate SafeOp(img: Image, op: Op) {
    op.DeleteOp? && op.k < |img.entries| ==> DeleteSafe(img, op.k)
  }

  lemma StepRefines(img: Image, itemCapacity: nat, op: Op)
    requires Tiled(img) && SafeOp(img, op)
    ensures var r := Step(img, itemCapacity, op);
            && Tiled(r) && |r.arena| == |img.arena|
            && Items(r) == ListStep(Items(img), itemCapacity, |img.arena|, op)
  {
    hide Tiled, Span, EntrySpan, PayloadSize;
    ItemsSpans(img);
    match op
    case AddOp(tag, dataType, count, data) =>
      if Step(img, itemCapacity, op) != img {
        AddRefines(img, tag, dataType, count, data);
      }
    case UpdateOp(k, count, data) =>
      if k < |img.entries| && WellSized(img.entries[k].dataType, count, data) && UpdateFits(img, k, Span(|data|)) {
        UpdateRefines(img, k, count, data);
      }
    case DeleteOp(k) =>
      if k < |img.entries| {
        DeleteRefinesIff(img, k);
      }
  }

  function Run(img: Image, itemCapacity: nat, ops: seq<Op>): Image
    requires Tiled(img) && SafeRun(img, itemCapacity, ops)
    decreases |ops|
  {
    if ops == [] then img else
    StepRefines(img, itemCapacity, ops[0]);
    Run(Step(img, itemCapacity, ops[0]), itemCapacity, ops[1..])
  }

  /** No deletion in the run meets the case the deletion guard mishandles. */
  predicate SafeRun(img: Image, itemCapacity: nat, ops: seq<Op>)
    requires Tiled(img)
    decreases |ops|
  {
    ops == [] ||
    (SafeOp(img, ops[0]) &&
     (StepRefines(img, itemCapacity, ops[0]);
      SafeRun(Step(img, itemCapacity, ops[0]), itemCapacity, ops[1..])))
  }

  function ListRun(items: seq<Item>, itemCapacity: nat, dataCapacity: nat, ops: seq<Op>): seq<Item>
    decreases |ops|
  {
    if ops == [] then items
    else ListRun(ListStep(items, itemCapacity, dataCapacity, ops[0]), itemCapacity, dataCapacity, ops[1..])
  }

  /** After any safe run the arena is tiled and the items are those of the plain list. */
  lemma {:induction false} RunRefines(img: Image, itemCapacity: nat, ops: seq<Op>)
    requires Tiled(img) && SafeRun(img, itemCapacity, ops)
    ensures Tiled(Run(img, itemCapacity, ops))
    ensures Items(Run(img, itemCapacity, ops)) == ListRun(Items(img), itemCapacity, |img.arena|, ops)
    decreases |ops|
  {
    if ops == [] {
    } else {
      hide Tiled, Step, ListStep;
      StepRefines(img, itemCapacity, ops[0]);
      RunRefines(Step(img, itemCapacity, ops[0]), itemCapacity, ops[1..]);
    }
  }

  /** A run that only adds and updates is safe from every starting layout. */
  lemma {:induction false} AddsAndUpdatesAreSafe(img: Image, itemCapacity: nat, ops: seq<Op>)
    requires Tiled(img)
    requires forall i :: 0 <= i < |ops| ==> !ops[i].DeleteOp?
    ensures SafeRun(img, itemCapacity, ops)
    decreases |ops|
  {
    if ops == [] {
    } else {
      hide Tiled, Step, ListStep;
      StepRefines(img, itemCapacity, ops[0]);
      AddsAndUpdatesAreSafe(Step(img, itemCapacity, ops[0]), itemCapacity, ops[1..]);
    }
  }

  /** How the payloads are laid out never shows: equal contents behave alike for ever. */
  lemma LayoutIsInvisible(a: Image, b: Image, itemCapacity: nat, ops: seq<Op>)
    requires Tiled(a) && Tiled(b) && |a.arena| == |b.arena| && Items(a) == Items(b)
    requires SafeRun(a, itemCapacity, ops) && SafeRun(b, itemCapacity, ops)
    ensures Tiled(Run(a, itemCapacity, ops)) && Tiled(Run(b, itemCapacity, ops))
    ensures Items(Run(a, itemCapacity, ops)) == Items(Run(b, itemCapacity, ops))
  {
    RunRefines(a, itemCapacity, ops);
    RunRefines(b, itemCapacity, ops);
  }
}
