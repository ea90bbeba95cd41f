/**
 Configuration trees, the byte code each one stands for, and the orders in which the iterative
 walks visit them. `Id` is whatever identifies an object: a reference in memory, or the file
 offset a decompiled node remembers.
 */
module HcsTree {
  import opened Bytes

  /** What a node is, with the path it refers to if it refers to one. */
  datatype NodeKind =
    | NoRef
    | CopyOf(path: seq<byte>)
    | RefTo(path: seq<byte>)
    | Delete
    | Template
    | Inherit(path: seq<byte>)

  datatype Label<Id> =
    | Num(width: nat, value: nat)
    | Str(text: seq<byte>)
    | Arr
    | Ref(target: Id)
    | Del
    | Term(name: seq<byte>)
    | Node(name: seq<byte>, kind: NodeKind)

  datatype Tree<Id> = Tree(id: Id, lab: Label<Id>, kids: seq<Tree<Id>>)

  // ----- sizes and bytes -----

  function Align4(n: nat, align: bool): (r: nat)
    ensures n <= r < n + 4 && (align ==> r % 4 == 0) && (!align ==> r == n)
  {
    if align then (n + 3) / 4 * 4 else n
  }

  /** One write: the bytes, zero-padded to the alignment. */
  function Padded(b: seq<byte>, align: bool): (r: seq<byte>)
    ensures |r| == Align4(|b|, align) && r[..|b|] == b
  {
    b + seq(Align4(|b|, align) - |b|, _ => 0)
  }

  /** The op code of a label; 0 when it has none. */
  function OpCode<Id>(l: Label<Id>): byte {
    match l
    case Node(_, _) => 0x01
    case Term(_) => 0x02
    case Ref(_) => 0x03
    case Arr => 0x04
    case Num(w, _) =>
      if w == 1 then 0x10 else if w == 2 then 0x11 else if w == 4 then 0x12 else if w == 8 then 0x13 else 0
    case Str(_) => 0x14
    case Del => 0
  }

  function Body<Id>(l: Label<Id>, subSize: nat, count: nat, offset: Id -> nat, align: bool): seq<byte> {
    match l
    case Node(name, _) => Padded(name + [0], align) + Padded(ToLE(subSize, 4), align)
    case Term(name) => Padded(name + [0], align)
    case Ref(target) => Padded(ToLE(offset(target), 4), align)
    case Arr => Padded(ToLE(count, 2), align)
    case Num(w, v) => Padded(ToLE(v, w), align)
    case Str(text) => Padded(text + [0], align)
    case Del => []
  }

  /** What an object itself puts in the file, before its children. */
  function Head<Id>(t: Tree<Id>, offset: Id -> nat, align: bool): seq<byte> {
    Padded([OpCode(t.lab)], align) + Body(t.lab, SizeAll(t.kids, align), |t.kids|, offset, align)
  }

  function BodySize<Id>(l: Label<Id>, align: bool): nat {
    match l
    case Node(name, _) => Align4(|name| + 1, align) + Align4(4, align)
    case Term(name) => Align4(|name| + 1, align)
    case Ref(_) => Align4(4, align)
    case Arr => Align4(2, align)
    case Num(w, _) => Align4(w, align)
    case Str(text) => Align4(|text| + 1, align)
    case Del => 0
  }

  function HeadSize<Id>(l: Label<Id>, align: bool): (n: nat)
    ensures n > 0
  {
    Align4(1, align) + BodySize(l, align)
  }

  /** The size the post-order pass computes for a subtree. */
  function Size<Id>(t: Tree<Id>, align: bool): (n: nat)
    ensures n > 0
  {
    HeadSize(t.lab, align) + SizeAll(t.kids, align)
  }

  function SizeAll<Id>(ts: seq<Tree<Id>>, align: bool): nat {
    if ts == [] then 0 else Size(ts[0], align) + SizeAll(ts[1..], align)
  }

  /** The bytes of a subtree, object by object in pre-order. */
  function Emit<Id>(t: Tree<Id>, offset: Id -> nat, align: bool): seq<byte> {
    Head(t, offset, align) + EmitAll(t.kids, offset, align)
  }

  function EmitAll<Id>(ts: seq<Tree<Id>>, offset: Id -> nat, align: bool): seq<byte> {
    if ts == [] then [] else Emit(ts[0], offset, align) + EmitAll(ts[1..], offset, align)
  }

  lemma HeadLength<Id>(t: Tree<Id>, offset: Id -> nat, align: bool)
    ensures |Head(t, offset, align)| == HeadSize(t.lab, align)
  {
  }

  /** The bytes emitted for a subtree are as many as its computed size. */
  lemma {:induction false} EmitLength<Id>(t: Tree<Id>, offset: Id -> nat, align: bool)
    ensures |Emit(t, offset, align)| == Size(t, align)
  {
    HeadLength(t, offset, align);
    EmitAllLength(t.kids, offset, align);
  }

  lemma {:induction false} EmitAllLength<Id>(ts: seq<Tree<Id>>, offset: Id -> nat, align: bool)
    ensures |EmitAll(ts, offset, align)| == SizeAll(ts, align)
  {
    if ts == [] {
    } else {
      EmitLength(ts[0], offset, align);
      EmitAllLength(ts[1..], offset, align);
    }
  }

  // ----- pre-order -----

  /** The subtrees in the order their roots are visited first. */
  function Pre<Id>(t: Tree<Id>): (r: seq<Tree<Id>>)
    ensures r != [] && r[0] == t
  {
    [t] + PreAll(t.kids)
  }

  function PreAll<Id>(ts: seq<Tree<Id>>): seq<Tree<Id>> {
    if ts == [] then [] else Pre(ts[0]) + PreAll(ts[1..])
  }

  function Heads<Id>(ts: seq<Tree<Id>>, offset: Id -> nat, align: bool): seq<byte> {
    if ts == [] then [] else Head(ts[0], offset, align) + Heads(ts[1..], offset, align)
  }

  function HeadSizes<Id>(ts: seq<Tree<Id>>, align: bool): nat {
    if ts == [] then 0 else HeadSize(ts[0].lab, align) + HeadSizes(ts[1..], align)
  }

  lemma {:induction false} HeadsConcat<Id>(a: seq<Tree<Id>>, b: seq<Tree<Id>>, offset: Id -> nat, align: bool)
    ensures Heads(a + b, offset, align) == Heads(a, offset, align) + Heads(b, offset, align)
    ensures HeadSizes(a + b, align) == HeadSizes(a, align) + HeadSizes(b, align)
  {
    hide Head, HeadSize;
    if a == [] {
      assert a + b == b;
    } else {
      assert (a + b)[1..] == a[1..] + b;
      HeadsConcat(a[1..], b, offset, align);
    }
  }

  /** Emitting heads in pre-order emits the subtree. */
  lemma {:induction false} HeadsArePreEmit<Id>(t: Tree<Id>, offset: Id -> nat, align: bool)
    ensures Heads(Pre(t), offset, align) == Emit(t, offset, align)
    ensures HeadSizes(Pre(t), align) == Size(t, align)
  {
    hide Head, HeadSize;
    HeadsArePreEmitAll(t.kids, offset, align);
    HeadsConcat([t], PreAll(t.kids), offset, align);
    assert [t][1..] == [];
  }

  lemma {:induction false} HeadsArePreEmitAll<Id>(ts: seq<Tree<Id>>, offset: Id -> nat, align: bool)
    ensures Heads(PreAll(ts), offset, align) == EmitAll(ts, offset, align)
    ensures HeadSizes(PreAll(ts), align) == SizeAll(ts, align)
  {
    hide Head, HeadSize;
    if ts == [] {
    } else {
      HeadsArePreEmit(ts[0], offset, align);
      HeadsArePreEmitAll(ts[1..], offset, align);
      HeadsConcat(Pre(ts[0]), PreAll(ts[1..]), offset, align);
    }
  }
}
