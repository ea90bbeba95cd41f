/** The printer itself: a walk over the linked tree that appends to the output file. */
module HcsPrintWalk {
  import opened Bytes
  import opened HcsTree
  import opened TreeWalk
  import opened AstHeap
  import opened ByteCodeWrite
  import opened HcsPrinter

  /** No node references, whose paths the printer would have to work out. */
  ghost predicate NoRefs(t: Obj) {
    forall x :: x in Pre(t) ==> !x.lab.Ref?
  }

  ghost predicate TermsFull(t: Obj) {
    forall x :: x in Pre(t) && x.lab.Term? ==> x.kids != []
  }

  /** Every term's value can be printed. */
  ghost predicate AllPrint(t: Obj) {
    forall x :: x in Pre(t) ==> TermPrints(x)
  }

  /** The label of an object of a linked tree, and its link to its first child. */
  lemma LinkedHere(t: Obj, objs: set<AstObject>, x: Obj)
    requires Wired(t, {}) && Labelled(t) && x in Pre(t) && objs == Ids(t)
    ensures x.id in objs && x.id.lab == x.lab
    ensures x.id.child == if x.kids == [] then null else x.kids[0].id
    ensures x.kids != [] ==> x.kids[0] in Pre(t)
  {
    KidsWithin(t, x);
    assert WiredAt(x, {});
    if x.kids != [] {
      PreTrans(t, x, 0);
    }
  }

  /** A child's link to the next one. */
  lemma KidNext(t: Obj, objs: set<AstObject>, x: Obj, i: nat)
    requires Wired(t, {}) && x in Pre(t) && objs == Ids(t) && i < |x.kids|
    ensures x.kids[i] in Pre(t) && x.kids[i].id in objs
    ensures x.kids[i].id.next == if i + 1 < |x.kids| then x.kids[i + 1].id else null
  {
    KidsWithin(t, x);
    assert WiredAt(x, {});
    PreTrans(t, x, i);
    IdsOfPre(t, x.kids[i]);
    KidIdIn(x, i);
    hide WiredAt;
    assert x.kids[i].id.next == NextLive(x.kids, i + 1, {});
  }

  class DecompileGen {
    var file: seq<byte>

    constructor ()
      ensures file == []
    {
      file := [];
    }

    method WriteFile(str: seq<byte>)
      modifies this
      ensures file == old(file) + str
    {
      file := file + str;
    }

    /** A value; fails on what is none. */
    method PrintBaseType(obj: AstObject, ghost t: Obj, ghost objs: set<AstObject>, ghost x: Obj) returns (ok: bool)
      requires x in Pre(t) && obj == x.id && objs == Ids(t) && Wired(t, {}) && Labelled(t) && NoRefs(t) && Leafless(t)
      modifies this
      ensures ok <==> ValueOk(x)
      ensures ok ==> file == old(file) + ValueText(x)
      decreases x, 1
    {
      hide Wired, Labelled, Pre, Ids;
      LinkedHere(t, objs, x);
      ok := true;
      match obj.lab {
        case Num(w, v) =>
          WriteFile([0x30, 0x78] + HexText(v));
        case Str(text) =>
          WriteFile([0x22] + text + [0x22]);
        case Arr =>
          ok := PrintArrayType(obj, t, objs, x);
        case _ =>
          ok := false;
      }
    }

    /** An array, its elements separated by commas. */
    method PrintArrayType(obj: AstObject, ghost t: Obj, ghost objs: set<AstObject>, ghost x: Obj) returns (ok: bool)
      requires x in Pre(t) && obj == x.id && x.lab.Arr?
      requires objs == Ids(t) && Wired(t, {}) && Labelled(t) && NoRefs(t) && Leafless(t)
      modifies this
      ensures ok <==> ValueOk(x)
      ensures ok ==> file == old(file) + ValueText(x)
      decreases x, 0
    {
      hide Wired, Labelled, Pre, Ids, ValueText, ElementsBefore, NoRefs, Leafless;
      LinkedHere(t, objs, x);
      ghost var before := file;
      WriteFile([0x5B]);
      var element := obj.child;
      ghost var i, open := 0, before + [0x5B];
      if element != null {
        KidNext(t, objs, x, 0);
        NoneBefore(x.kids, open);
        while element.next != null
          invariant i < |x.kids| && element == x.kids[i].id && x.kids[i] in Pre(t)
          invariant element.next == if i + 1 < |x.kids| then x.kids[i + 1].id else null
          invariant forall k :: 0 <= k < i ==> ValueOk(x.kids[k])
          invariant file == open + ElementsBefore(x.kids, i)
          decreases |x.kids| - i
        {
          ok := PrintBaseType(element, t, objs, x.kids[i]);
          if !ok {
            return;
          }
          WriteFile(SEPARATOR);
          OneMore(x.kids, i, open);
          element := element.next;
          i := i + 1;
          KidNext(t, objs, x, i);
        }
        ok := PrintBaseType(element, t, objs, x.kids[i]);
        if !ok {
          return;
        }
        ConcatAssoc(open, ElementsBefore(x.kids, i), ValueText(x.kids[i]));
        LastElement(x.kids);
      }
      WriteFile([0x5D]);
      ArrayText(x, before);
      ok := true;
    }

    /** The forward callback. */
    method OutPutWalk(obj: AstObject, walkDepth: nat, ghost t: Obj, ghost objs: set<AstObject>, ghost x: Obj)
      returns (ok: bool)
      requires x in Pre(t) && obj == x.id && objs == Ids(t) && Wired(t, {}) && Labelled(t) && NoRefs(t) && Leafless(t)
      requires TermsFull(t)
      modifies this
      ensures ok <==> TermPrints(x)
      ensures ok ==> file == old(file) + EnterText(x, walkDepth)
    {
      hide Wired, Labelled, Pre, Ids, ValueText, Tab, ValueOk;
      LinkedHere(t, objs, x);
      ghost var before := file;
      ok := true;
      assert before + [] == before;
      var tab := Tab(walkDepth);
      match obj.lab {
        case Node(name, _) =>
          WriteFile(tab);
          WriteFile(name + OPENING);
          ConcatAssoc(before, tab, name + OPENING);
          ghost var head := tab + (name + OPENING);
          assert head + [] == head;
          if obj.child == null {
            WriteFile(tab + CLOSING);
            ConcatAssoc(before, head, tab + CLOSING);
          }
        case Term(name) =>
          WriteFile(tab);
          WriteFile(name + ASSIGN);
          ConcatAssoc(before, tab, name + ASSIGN);
          ghost var head := tab + (name + ASSIGN);
          ok := PrintBaseType(obj.child, t, objs, x.kids[0]);
          if ok {
            WriteFile(TERM_END);
            ConcatAssoc(before, head, ValueText(x.kids[0]));
            ConcatAssoc(before, head + ValueText(x.kids[0]), TERM_END);
          }
        case _ =>
      }
    }

    /** The backward callback. */
    method CloseBrace(obj: AstObject, walkDepth: nat, ghost x: Obj)
      requires obj.lab == x.lab
      modifies this
      ensures file == old(file) + LeaveText(x, walkDepth)
    {
      if obj.lab.Node? {
        WriteFile(Tab(walkDepth) + CLOSING);
      } else {
        assert file + [] == file;
      }
    }

    /** The walk in both directions, printing on the way in and on the way out. */
    method OutPut(root: AstObject, ghost t: Obj, ghost objs: set<AstObject>) returns (ok: bool)
      requires root == t.id && Distinct(t) && objs == Ids(t) && Wired(t, {}) && Labelled(t)
      requires NoRefs(t) && Leafless(t) && TermsFull(t) && file == []
      modifies this
      ensures ok <==> AllPrint(t)
      ensures ok && Shapely(t) ==> file == FILE_COMMENT + Print(t, 0)
    {
      hide Wired, Labelled, Gone, Events, Ids, Pre, Distinct, NoRefs, Leafless, TermsFull, AllPrint, TermPrints,
        RoundText, EnterText, LeaveText, EventsPrint, Print, Shapely, Depths;
      WriteFile(FILE_COMMENT);
      assert [] + FILE_COMMENT == FILE_COMMENT;
      var cur: AstObject? := root;
      var walkDepth, preVisited := 0, false;
      ghost var k, evs, ds := 0, Events(t), Depths(t, 0);
      DepthsLength(t, 0);
      NothingPrinted(evs, ds);
      while cur != null
        invariant k < |evs| && cur == evs[k].tree.id && preVisited == evs[k].up && walkDepth == ds[k]
        invariant EventsPrint(evs[..k])
        invariant file == FILE_COMMENT + RoundText(evs[..k], ds[..k])
        decreases |evs| - k
      {
        NothingGone(t, k);
        ghost var p, i := AtEvent(t, objs, Nothing, k);
        if k + 1 < |evs| {
          DepthStep(t, 0, k);
        }
        ghost var x := evs[k].tree;
        LinkedHere(t, objs, x);
        if preVisited {
          EnteredBefore(t, k);
          PrintsMore(evs, k);
          CloseBrace(cur, walkDepth, x);
          Printed(evs, ds, k, FILE_COMMENT);
        } else {
          ok := OutPutWalk(cur, walkDepth, t, objs, x);
          if !ok {
            NotAllPrint(t, x);
            return;
          }
          PrintsMore(evs, k);
          Printed(evs, ds, k, FILE_COMMENT);
          if cur.child != null {
            walkDepth := walkDepth + 1;
            cur := cur.child;
            k := k + 1;
            continue;
          }
        }
        if cur == root {
          RootLast(t, k);
          break;
        }
        if cur.next != null {
          cur, preVisited := cur.next, false;
        } else {
          cur, preVisited := cur.parent, true;
          walkDepth := walkDepth - 1;
        }
        k := k + 1;
      }
      ok := true;
      assert evs[..k + 1] == evs && ds[..k + 1] == ds;
      AllEventsPrint(t);
      if Shapely(t) {
        WalkPrints(t, 0);
      }
    }
  }

  /** Numbers and strings have no children. */
  ghost predicate Leafless(t: Obj) {
    forall x :: x in Pre(t) && (x.lab.Num? || x.lab.Str?) ==> x.kids == []
  }

  function ElementsBefore<Id>(ts: seq<Tree<Id>>, n: nat): seq<byte>
    requires n <= |ts| && forall k :: 0 <= k < n ==> ValueOk(ts[k])
  {
    if n == 0 then [] else ElementsBefore(ts, n - 1) + (ValueText(ts[n - 1]) + SEPARATOR)
  }

  lemma NoneBefore<Id>(ts: seq<Tree<Id>>, open: seq<byte>)
    ensures open + ElementsBefore(ts, 0) == open
  {
  }

  lemma OneMore<Id>(ts: seq<Tree<Id>>, i: nat, open: seq<byte>)
    requires i < |ts| && forall k :: 0 <= k <= i ==> ValueOk(ts[k])
    ensures open + ElementsBefore(ts, i) + ValueText(ts[i]) + SEPARATOR == open + ElementsBefore(ts, i + 1)
  {
    hide ValueText;
    ConcatAssoc(open + ElementsBefore(ts, i), ValueText(ts[i]), SEPARATOR);
    ConcatAssoc(open, ElementsBefore(ts, i), ValueText(ts[i]) + SEPARATOR);
  }

  lemma ArrayText<Id>(x: Tree<Id>, before: seq<byte>)
    requires x.lab.Arr? && ValueOk(x)
    ensures (before + [0x5B]) + ElementsText(x.kids) + [0x5D] == before + ValueText(x)
    ensures x.kids == [] ==> before + [0x5B] + [0x5D] == before + ValueText(x)
  {
    hide ElementsText;
    ConcatAssoc(before, [0x5B], ElementsText(x.kids));
    ConcatAssoc(before, [0x5B] + ElementsText(x.kids), [0x5D]);
    if x.kids == [] {
      assert ElementsText(x.kids) == [] by { NoElements(x.kids); }
      assert before + [0x5B] + [] == before + [0x5B];
    }
  }

  lemma NoElements<Id>(ts: seq<Tree<Id>>)
    requires ts == []
    ensures ElementsText(ts) == []
  {
  }

  lemma {:induction false} ElementsBeforeShift<Id>(ts: seq<Tree<Id>>, n: nat)
    requires 0 < n <= |ts| && forall k :: 0 <= k < n ==> ValueOk(ts[k])
    ensures ElementsBefore(ts, n) == ValueText(ts[0]) + SEPARATOR + ElementsBefore(ts[1..], n - 1)
  {
    hide ValueText;
    if n == 1 {
      var one := ValueText(ts[0]) + SEPARATOR;
      assert [] + one == one && one + [] == one;
    } else {
      ElementsBeforeShift(ts, n - 1);
      ConcatAssoc(ValueText(ts[0]) + SEPARATOR, ElementsBefore(ts[1..], n - 2), ValueText(ts[n - 1]) + SEPARATOR);
    }
  }

  lemma {:induction false} LastElement<Id>(ts: seq<Tree<Id>>)
    requires ts != [] && forall k :: 0 <= k < |ts| ==> ValueOk(ts[k])
    ensures ElementsBefore(ts, |ts| - 1) + ValueText(ts[|ts| - 1]) == ElementsText(ts)
  {
    hide ValueText;
    if |ts| == 1 {
      assert [] + ValueText(ts[0]) == ValueText(ts[0]);
    } else {
      LastElement(ts[1..]);
      ElementsBeforeShift(ts, |ts| - 1);
      ConcatAssoc(ValueText(ts[0]) + SEPARATOR, ElementsBefore(ts[1..], |ts| - 2), ValueText(ts[|ts| - 1]));
    }
  }

  lemma NothingPrinted<Id>(evs: seq<Event<Id>>, ds: seq<nat>)
    requires |evs| == |ds|
    ensures EventsPrint(evs[..0]) && RoundText(evs[..0], ds[..0]) == [] && FILE_COMMENT + [] == FILE_COMMENT
  {
  }

  lemma PrintsMore<Id>(evs: seq<Event<Id>>, k: nat)
    requires k < |evs| && EventsPrint(evs[..k]) && TermPrints(evs[k].tree)
    ensures EventsPrint(evs[..k + 1])
  {
    var more, now := evs[..k], evs[..k + 1];
    forall j | 0 <= j < k + 1 ensures TermPrints(now[j].tree) {
      if j < k {
        assert now[j] == more[j];
      }
    }
  }

  lemma Printed<Id>(evs: seq<Event<Id>>, ds: seq<nat>, k: nat, head: seq<byte>)
    requires k < |evs| == |ds| && EventsPrint(evs[..k]) && EventsPrint(evs[..k + 1]) && TermPrints(evs[k].tree)
    ensures (head + RoundText(evs[..k], ds[..k])) + EventText(evs[k], ds[k]) ==
            head + RoundText(evs[..k + 1], ds[..k + 1])
  {
    hide EventText, TermPrints, RoundText;
    var e, d := evs[..k + 1], ds[..k + 1];
    assert e[..k] == evs[..k] && d[..k] == ds[..k] && e[..k + 1] == e && d[..k + 1] == d;
    RoundStep(e, d, k);
    ConcatAssoc(head, RoundText(evs[..k], ds[..k]), EventText(evs[k], ds[k]));
  }

  /** An object is entered before the walk comes back up to it. */
  lemma EnteredBefore(t: Obj, k: nat)
    requires k < |Events(t)| && Events(t)[k].up && EventsPrint(Events(t)[..k])
    ensures TermPrints(Events(t)[k].tree)
  {
    var j := EnterEarlier(t, k);
    assert Events(t)[..k][j] == Events(t)[j];
  }

  lemma {:induction false} EnterEarlier<Id>(t: Tree<Id>, k: nat) returns (j: nat)
    requires k < |Events(t)| && Events(t)[k].up
    ensures j < k && Events(t)[j] == Event(Events(t)[k].tree, false)
    decreases t, |t.kids| + 1
  {
    LastEvent(t);
    if k == |Events(t)| - 1 {
      j := 0;
    } else {
      j := EnterEarlierKids(t, 0, k - 1);
      j := j + 1;
    }
  }

  lemma {:induction false} EnterEarlierKids<Id>(p: Tree<Id>, a: nat, k: nat) returns (j: nat)
    requires a <= |p.kids| && k + 1 < |KidEvents(p, a)| && KidEvents(p, a)[k].up
    ensures j < k && KidEvents(p, a)[j] == Event(KidEvents(p, a)[k].tree, false)
    decreases p, |p.kids| - a
  {
    var first := Events(p.kids[a]);
    if k < |first| {
      j := EnterEarlier(p.kids[a], k);
    } else {
      j := EnterEarlierKids(p, a + 1, k - |first|);
      j := j + |first|;
    }
  }

  lemma NotAllPrint(t: Obj, x: Obj)
    requires x in Pre(t) && !TermPrints(x)
    ensures !AllPrint(t)
  {
  }

  lemma AllEventsPrint(t: Obj)
    requires EventsPrint(Events(t))
    ensures AllPrint(t)
  {
    forall x | x in Pre(t) ensures TermPrints(x) {
      var j := LeftSomewhere(t, x);
    }
  }

  /** Being back at the root, or at a root without children, ends the walk. */
  lemma RootLast(t: Obj, k: nat)
    requires Distinct(t) && k < |Events(t)| && Leaves(Events(t)[k]) && Events(t)[k].tree.id == t.id
    ensures k == |Events(t)| - 1
  {
    if k + 1 < |Events(t)| {
      LastEvent(t);
      LeaveOnce(t, k, |Events(t)| - 1);
    }
  }
}
