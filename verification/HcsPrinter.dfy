/** Printing a tree as configuration source while walking it. */
module HcsPrinter {
  import opened Bytes
  import opened HcsTree
  import opened TreeWalk

  const TAB_SIZE: nat := 4

  // Fragments of text, in order: ` {` and a line end, `}` and a line end, ` = `, `;` and a line end, `, `.
  const OPENING: seq<byte> := [0x20, 0x7B, 0x0A]
  const CLOSING: seq<byte> := [0x7D, 0x0A]
  const ASSIGN: seq<byte> := [0x20, 0x3D, 0x20]
  const TERM_END: seq<byte> := [0x3B, 0x0A]
  const SEPARATOR: seq<byte> := [0x2C, 0x20]

  /** The comment every printed file starts with: "HDF decompile hcs file" between comment marks, and an empty line. */
  const FILE_COMMENT: seq<byte> := [
    0x2F, 0x2A, 0x0A, 0x20, 0x2A, 0x20, 0x48, 0x44, 0x46, 0x20, 0x64, 0x65, 0x63, 0x6F, 0x6D, 0x70, 0x69, 0x6C, 0x65,
    0x20, 0x68, 0x63, 0x73, 0x20, 0x66, 0x69, 0x6C, 0x65, 0x0A, 0x20, 0x2A, 0x2F, 0x0A, 0x0A]

  function Tab(d: nat): seq<byte> {
    seq(TAB_SIZE * d, _ => 0x20)
  }

  function HexDigit(n: nat): byte
    requires n < 16
  {
    if n < 10 then 0x30 + n else 0x41 + (n - 10)
  }

  /** Upper-case hexadecimal digits, most significant first. */
  function HexText(v: nat): (t: seq<byte>)
    ensures t != []
  {
    if v < 16 then [HexDigit(v)] else HexText(v / 16) + [HexDigit(v % 16)]
  }

  /** A value that can be printed. */
  predicate ValueOk<Id>(t: Tree<Id>) {
    match t.lab
    case Num(_, _) => t.kids == []
    case Str(_) => t.kids == []
    case Arr => forall i :: 0 <= i < |t.kids| ==> ValueOk(t.kids[i])
    case _ => false
  }

  function ValueText<Id>(t: Tree<Id>): seq<byte>
    requires ValueOk(t)
  {
    match t.lab
    case Num(_, v) => [0x30, 0x78] + HexText(v)
    case Str(text) => [0x22] + text + [0x22]
    case Arr => [0x5B] + ElementsText(t.kids) + [0x5D]
  }

  function ElementsText<Id>(ts: seq<Tree<Id>>): seq<byte>
    requires forall i :: 0 <= i < |ts| ==> ValueOk(ts[i])
  {
    if ts == [] then []
    else if |ts| == 1 then ValueText(ts[0])
    else ValueText(ts[0]) + SEPARATOR + ElementsText(ts[1..])
  }

  /** Every term has a value, and it can be printed. */
  predicate TermPrints<Id>(t: Tree<Id>) {
    t.lab.Term? ==> t.kids != [] && ValueOk(t.kids[0])
  }

  /** What entering an object at a depth prints. */
  function EnterText<Id>(t: Tree<Id>, d: nat): seq<byte>
    requires TermPrints(t)
  {
    match t.lab
    case Node(name, _) => Tab(d) + (name + OPENING) + if t.kids == [] then Tab(d) + CLOSING else []
    case Term(name) => Tab(d) + (name + ASSIGN) + ValueText(t.kids[0]) + TERM_END
    case _ => []
  }

  /** What coming back up to it prints. */
  function LeaveText<Id>(t: Tree<Id>, d: nat): seq<byte> {
    if t.lab.Node? then Tab(d) + CLOSING else []
  }

  function EventText<Id>(e: Event<Id>, d: nat): seq<byte>
    requires TermPrints(e.tree)
  {
    if e.up then LeaveText(e.tree, d) else EnterText(e.tree, d)
  }

  // ----- the text of a tree, recursively -----

  /** Nodes hold nodes and terms, terms hold one value. */
  predicate Shapely<Id>(t: Tree<Id>) {
    match t.lab
    case Node(_, _) => forall i :: 0 <= i < |t.kids| ==> Shapely(t.kids[i])
    case Term(_) => |t.kids| == 1 && ValueOk(t.kids[0])
    case _ => false
  }

  function Print<Id>(t: Tree<Id>, d: nat): seq<byte>
    requires Shapely(t)
  {
    match t.lab
    case Node(name, _) => Tab(d) + (name + OPENING) + PrintAll(t.kids, d + 1) + (Tab(d) + CLOSING)
    case Term(name) => Tab(d) + (name + ASSIGN) + ValueText(t.kids[0]) + TERM_END
  }

  function PrintAll<Id>(ts: seq<Tree<Id>>, d: nat): seq<byte>
    requires forall i :: 0 <= i < |ts| ==> Shapely(ts[i])
  {
    if ts == [] then [] else Print(ts[0], d) + PrintAll(ts[1..], d)
  }

  // ----- depths along a walk -----

  /** The depth of the object of each event. */
  function Depths<Id>(t: Tree<Id>, d: nat): (r: seq<nat>)
    ensures r != [] && r[0] == d
    decreases t, |t.kids| + 1
  {
    [d] + if t.kids == [] then [] else KidDepths(t, 0, d)
  }

  function KidDepths<Id>(p: Tree<Id>, a: nat, d: nat): (r: seq<nat>)
    requires a <= |p.kids|
    ensures r != [] && r[0] == if a < |p.kids| then d + 1 else d
    decreases p, |p.kids| - a
  {
    if a == |p.kids| then [d] else Depths(p.kids[a], d + 1) + KidDepths(p, a + 1, d)
  }

  lemma {:induction false} DepthsLength<Id>(t: Tree<Id>, d: nat)
    ensures |Depths(t, d)| == |Events(t)| && Depths(t, d)[|Events(t)| - 1] == d
    decreases t, |t.kids| + 1
  {
    if t.kids == [] {
    } else {
      KidDepthsLength(t, 0, d);
    }
  }

  lemma {:induction false} KidDepthsLength<Id>(p: Tree<Id>, a: nat, d: nat)
    requires a <= |p.kids|
    ensures |KidDepths(p, a, d)| == |KidEvents(p, a)| && KidDepths(p, a, d)[|KidEvents(p, a)| - 1] == d
    decreases p, |p.kids| - a
  {
    if a < |p.kids| {
      DepthsLength(p.kids[a], d + 1);
      KidDepthsLength(p, a + 1, d);
    }
  }

  /** Down is one deeper, sideways stays, up is one less deep. */
  predicate StepsRight<Id>(e: Event<Id>, f: Event<Id>, d: nat, g: nat) {
    if !Leaves(e) then g == d + 1 else if f.up then g + 1 == d else g == d
  }

  lemma {:induction false} DepthStep<Id>(t: Tree<Id>, d: nat, k: nat)
    requires k + 1 < |Events(t)|
    ensures |Depths(t, d)| == |Events(t)|
            && StepsRight(Events(t)[k], Events(t)[k + 1], Depths(t, d)[k], Depths(t, d)[k + 1])
    decreases t, |t.kids| + 1
  {
    DepthsLength(t, d);
    if k == 0 {
    } else {
      KidDepthStep(t, 0, d, k - 1);
    }
  }

  lemma {:induction false} KidDepthStep<Id>(p: Tree<Id>, a: nat, d: nat, k: nat)
    requires a <= |p.kids| && k + 1 < |KidEvents(p, a)|
    ensures |KidDepths(p, a, d)| == |KidEvents(p, a)|
    ensures StepsRight(KidEvents(p, a)[k], KidEvents(p, a)[k + 1], KidDepths(p, a, d)[k], KidDepths(p, a, d)[k + 1])
    decreases p, |p.kids| - a
  {
    KidDepthsLength(p, a, d);
    DepthsLength(p.kids[a], d + 1);
    var first := Events(p.kids[a]);
    if k + 1 < |first| {
      DepthStep(p.kids[a], d + 1, k);
    } else if k + 1 == |first| {
      LastEvent(p.kids[a]);
    } else {
      KidDepthsLength(p, a + 1, d);
      KidDepthStep(p, a + 1, d, k - |first|);
    }
  }

  // ----- what a walk prints is the text of the tree -----

  ghost predicate EventsPrint<Id>(evs: seq<Event<Id>>) {
    forall k :: 0 <= k < |evs| ==> TermPrints(evs[k].tree)
  }

  ghost function RoundText<Id>(evs: seq<Event<Id>>, ds: seq<nat>): seq<byte>
    requires |evs| == |ds| && EventsPrint(evs)
  {
    if evs == [] then [] else EventText(evs[0], ds[0]) + RoundText(evs[1..], ds[1..])
  }

  lemma {:induction false} RoundConcat<Id>(a: seq<Event<Id>>, da: seq<nat>, b: seq<Event<Id>>, db: seq<nat>)
    requires |a| == |da| && |b| == |db| && EventsPrint(a) && EventsPrint(b) && EventsPrint(a + b)
    ensures RoundText(a + b, da + db) == RoundText(a, da) + RoundText(b, db)
    decreases |a|
  {
    hide EventText, TermPrints;
    if a == [] {
      assert a + b == b && da + db == db;
    } else {
      assert (a + b)[1..] == a[1..] + b && (da + db)[1..] == da[1..] + db;
      RoundConcat(a[1..], da[1..], b, db);
      ConcatAssoc(EventText(a[0], da[0]), RoundText(a[1..], da[1..]), RoundText(b, db));
    }
  }

  lemma RoundStep<Id>(evs: seq<Event<Id>>, ds: seq<nat>, k: nat)
    requires k < |evs| == |ds| && EventsPrint(evs)
    ensures RoundText(evs[..k + 1], ds[..k + 1]) == RoundText(evs[..k], ds[..k]) + EventText(evs[k], ds[k])
  {
    hide EventText, TermPrints;
    RoundConcat(evs[..k], ds[..k], [evs[k]], [ds[k]]);
    assert evs[..k + 1] == evs[..k] + [evs[k]] && ds[..k + 1] == ds[..k] + [ds[k]];
    RoundOne(evs[k], ds[k]);
  }

  lemma RoundOne<Id>(e: Event<Id>, d: nat)
    requires TermPrints(e.tree)
    ensures RoundText([e], [d]) == EventText(e, d)
  {
    hide EventText;
    var es, ds := [e], [d];
    assert es[1..] == [] && ds[1..] == [];
    assert RoundText(es, ds) == EventText(e, d) + RoundText(es[1..], ds[1..]);
  }

  lemma {:induction false} ValueBelow<Id>(t: Tree<Id>, x: Tree<Id>)
    requires ValueOk(t) && x in Pre(t)
    ensures ValueOk(x)
  {
    if x != t {
      ValueBelowAll(t.kids, x);
    }
  }

  lemma {:induction false} ValueBelowAll<Id>(ts: seq<Tree<Id>>, x: Tree<Id>)
    requires (forall i :: 0 <= i < |ts| ==> ValueOk(ts[i])) && x in PreAll(ts)
    ensures ValueOk(x)
  {
    if x in Pre(ts[0]) {
      ValueBelow(ts[0], x);
    } else {
      ValueBelowAll(ts[1..], x);
    }
  }

  /** Below a term nothing is printed. */
  lemma ValueSilent<Id>(t: Tree<Id>, d: nat)
    requires ValueOk(t)
    ensures EventsPrint(Events(t)) && |Depths(t, d)| == |Events(t)| && RoundText(Events(t), Depths(t, d)) == []
  {
    DepthsLength(t, d);
    forall k | 0 <= k < |Events(t)|
      ensures TermPrints(Events(t)[k].tree) && EventText(Events(t)[k], Depths(t, d)[k]) == []
    {
      EventsInPre(t, k);
      ValueBelow(t, Events(t)[k].tree);
    }
    SilentAll(Events(t), Depths(t, d));
  }

  lemma {:induction false} SilentAll<Id>(evs: seq<Event<Id>>, ds: seq<nat>)
    requires |evs| == |ds| && EventsPrint(evs) && forall k :: 0 <= k < |evs| ==> EventText(evs[k], ds[k]) == []
    ensures RoundText(evs, ds) == []
    decreases |evs|
  {
    hide EventText;
    if evs == [] {
    } else {
      SilentAll(evs[1..], ds[1..]);
    }
  }

  lemma PrintsConcat<Id>(a: seq<Event<Id>>, b: seq<Event<Id>>)
    requires EventsPrint(a) && EventsPrint(b)
    ensures EventsPrint(a + b)
  {
    forall k | 0 <= k < |a + b| ensures TermPrints((a + b)[k].tree) {
      assert (a + b)[k] == if k < |a| then a[k] else b[k - |a|];
    }
  }

  /** The text a walk prints is the text of the tree. */
  lemma {:induction false} WalkPrints<Id>(t: Tree<Id>, d: nat)
    requires Shapely(t)
    ensures EventsPrint(Events(t)) && |Depths(t, d)| == |Events(t)|
    ensures RoundText(Events(t), Depths(t, d)) == Print(t, d)
    decreases t, |t.kids| + 1
  {
    DepthsLength(t, d);
    var enter := Event(t, false);
    assert TermPrints(t);
    if t.kids == [] {
      assert Events(t) == [enter] && Depths(t, d) == [d];
      RoundOne(enter, d);
      EmptyNode(t, d);
    } else {
      var evs, ds := KidEvents(t, 0), KidDepths(t, 0, d);
      KidDepthsLength(t, 0, d);
      if t.lab.Node? {
        KidsPrint(t, 0, d);
        assert t.kids[0..] == t.kids;
      } else {
        TermSilent(t, d);
      }
      PrintsConcat([enter], evs);
      RoundConcat([enter], [d], evs, ds);
      RoundOne(enter, d);
      hide Print, EnterText;
      FullNode(t, d);
    }
  }

  lemma EmptyNode<Id>(t: Tree<Id>, d: nat)
    requires Shapely(t) && t.kids == []
    ensures EnterText(t, d) == Print(t, d)
  {
    hide Tab;
  }

  lemma FullNode<Id>(t: Tree<Id>, d: nat)
    requires Shapely(t) && t.kids != []
    ensures t.lab.Node? ==> EnterText(t, d) + (PrintAll(t.kids, d + 1) + (Tab(d) + CLOSING)) == Print(t, d)
    ensures t.lab.Term? ==> EnterText(t, d) + [] == Print(t, d)
  {
    hide Tab, PrintAll, ValueText;
    if t.lab.Node? {
      var head := Tab(d) + (t.lab.name + OPENING);
      assert head + [] == head;
      ConcatAssoc(head, PrintAll(t.kids, d + 1), Tab(d) + CLOSING);
    }
  }

  lemma TermSilent<Id>(t: Tree<Id>, d: nat)
    requires Shapely(t) && t.lab.Term?
    ensures EventsPrint(KidEvents(t, 0)) && |KidDepths(t, 0, d)| == |KidEvents(t, 0)|
    ensures RoundText(KidEvents(t, 0), KidDepths(t, 0, d)) == []
  {
    var leave := Event(t, true);
    assert KidEvents(t, 0) == Events(t.kids[0]) + [leave];
    assert KidDepths(t, 0, d) == Depths(t.kids[0], d + 1) + [d];
    ValueSilent(t.kids[0], d + 1);
    PrintsConcat(Events(t.kids[0]), [leave]);
    RoundConcat(Events(t.kids[0]), Depths(t.kids[0], d + 1), [leave], [d]);
    RoundOne(leave, d);
  }

  lemma {:induction false} KidsPrint<Id>(p: Tree<Id>, a: nat, d: nat)
    requires Shapely(p) && p.lab.Node? && a <= |p.kids|
    ensures EventsPrint(KidEvents(p, a)) && |KidDepths(p, a, d)| == |KidEvents(p, a)|
    ensures RoundText(KidEvents(p, a), KidDepths(p, a, d)) == PrintAll(p.kids[a..], d + 1) + (Tab(d) + CLOSING)
    decreases p, |p.kids| - a
  {
    KidDepthsLength(p, a, d);
    hide Tab, EnterText, EventText, Print, RoundText;
    if a == |p.kids| {
      assert KidEvents(p, a) == [Event(p, true)] && KidDepths(p, a, d) == [d];
      RoundOne(Event(p, true), d);
      LeaveIs(p, d);
      assert p.kids[a..] == [];
      assert [] + (Tab(d) + CLOSING) == Tab(d) + CLOSING;
    } else {
      var first, ds := Events(p.kids[a]), Depths(p.kids[a], d + 1);
      WalkPrints(p.kids[a], d + 1);
      KidsPrint(p, a + 1, d);
      PrintsConcat(first, KidEvents(p, a + 1));
      RoundConcat(first, ds, KidEvents(p, a + 1), KidDepths(p, a + 1, d));
      assert p.kids[a..][0] == p.kids[a] && p.kids[a..][1..] == p.kids[a + 1..];
      ConcatAssoc(Print(p.kids[a], d + 1), PrintAll(p.kids[a + 1..], d + 1), Tab(d) + CLOSING);
    }
  }

  lemma LeaveIs<Id>(p: Tree<Id>, d: nat)
    requires p.lab.Node?
    ensures TermPrints(p) && EventText(Event(p, true), d) == Tab(d) + CLOSING
  {
  }
}
