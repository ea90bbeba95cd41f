/**
 Merging configuration trees, where later definitions win, and copying one into another, where
 earlier ones do.
 */
module TreeMerge {
  import opened Bytes
  import opened Wrappers
  import opened HcsTree

  /** A node whose children are nodes and terms, or a term with one value. */
  predicate Config<Id>(t: Tree<Id>) {
    match t.lab
    case Node(_, _) => forall i :: 0 <= i < |t.kids| ==> Config(t.kids[i])
    case Term(_) => |t.kids| == 1
    case _ => false
  }

  predicate AllConfig<Id>(ts: seq<Tree<Id>>) {
    forall i :: 0 <= i < |ts| ==> Config(ts[i])
  }

  /** What siblings are told apart by: the name, and whether it is a node's. */
  datatype Key = Key(name: seq<byte>, node: bool)

  function KeyOf<Id>(t: Tree<Id>): Key
    requires t.lab.Node? || t.lab.Term?
  {
    Key(t.lab.name, t.lab.Node?)
  }

  /** The position of the first child with a key, or the number of children. */
  function Lookup<Id>(ts: seq<Tree<Id>>, k: Key): (i: nat)
    requires AllConfig(ts)
    ensures i <= |ts| && (i < |ts| ==> KeyOf(ts[i]) == k)
    ensures forall j :: 0 <= j < i ==> KeyOf(ts[j]) != k
  {
    if ts == [] then 0 else if KeyOf(ts[0]) == k then 0 else 1 + Lookup(ts[1..], k)
  }

  function Get<Id>(ts: seq<Tree<Id>>, k: Key): Option<Tree<Id>>
    requires AllConfig(ts)
  {
    var i := Lookup(ts, k);
    if i < |ts| then Some(ts[i]) else None
  }

  /** `b` merged into `a`, which has the same key. */
  function Merge<Id>(a: Tree<Id>, b: Tree<Id>): (r: Tree<Id>)
    requires Config(a) && Config(b) && KeyOf(a) == KeyOf(b)
    ensures Config(r) && KeyOf(r) == KeyOf(a) && r.id == a.id
    decreases b, 0
  {
    if a.lab.Node? then Tree(a.id, Node(a.lab.name, b.lab.kind), MergeKids(a.kids, b.kids))
    else Tree(a.id, a.lab, b.kids)
  }

  function MergeKids<Id>(ts: seq<Tree<Id>>, us: seq<Tree<Id>>): (r: seq<Tree<Id>>)
    requires AllConfig(ts) && AllConfig(us)
    ensures AllConfig(r)
    decreases us, 1
  {
    if us == [] then ts else MergeKids(MergeOne(ts, us[0]), us[1..])
  }

  /** One child of the source: merged into its counterpart, or moved behind the others. */
  function MergeOne<Id>(ts: seq<Tree<Id>>, u: Tree<Id>): (r: seq<Tree<Id>>)
    requires AllConfig(ts) && Config(u)
    ensures AllConfig(r)
    decreases u, 1
  {
    var i := Lookup(ts, KeyOf(u));
    if i < |ts| then ts[i := Merge(ts[i], u)] else ts + [u]
  }

  /** No two siblings share a key, at any level. */
  predicate Unique<Id>(t: Tree<Id>)
    requires Config(t)
  {
    t.lab.Node? ==> UniqueKeys(t.kids) && forall i :: 0 <= i < |t.kids| ==> Unique(t.kids[i])
  }

  predicate UniqueKeys<Id>(ts: seq<Tree<Id>>)
    requires AllConfig(ts)
  {
    forall i, j :: 0 <= i < j < |ts| ==> KeyOf(ts[i]) != KeyOf(ts[j])
  }

  // ----- what a path leads to -----

  type Path = seq<seq<byte>>

  /** The member at a path, the last name being a term's or a node's. */
  function At<Id>(t: Tree<Id>, path: Path, node: bool): (r: Option<Tree<Id>>)
    requires Config(t)
    ensures r.Some? ==> Config(r.value) && r.value.lab.Node? == node
    decreases |path|
  {
    if path == [] || !t.lab.Node? then None else
    var r := Get(t.kids, Key(path[0], |path| > 1 || node));
    if r.None? || |path| == 1 then r else At(r.value, path[1..], node)
  }

  /** The value of the term at a path. */
  function ValueAt<Id>(t: Tree<Id>, path: Path): Option<Tree<Id>>
    requires Config(t)
  {
    var r := At(t, path, false);
    if r.Some? then Some(r.value.kids[0]) else None
  }

  /** The kind of the node at a path. */
  function KindAt<Id>(t: Tree<Id>, path: Path): Option<NodeKind>
    requires Config(t)
  {
    var r := At(t, path, true);
    if r.Some? then Some(r.value.lab.kind) else None
  }

  // ----- merging: the later definition wins -----

  /** What merging one member does to the child with a key. */
  lemma GetMergeOne<Id>(ts: seq<Tree<Id>>, u: Tree<Id>, k: Key)
    requires AllConfig(ts) && Config(u)
    ensures Get(MergeOne(ts, u), k) ==
            if k != KeyOf(u) then Get(ts, k)
            else if Get(ts, k).Some? then Some(Merge(Get(ts, k).value, u))
            else Some(u)
  {
    hide Merge;
    var i, r := Lookup(ts, KeyOf(u)), MergeOne(ts, u);
    KeysKept(ts, u);
    LookupIs(r, k, if k == KeyOf(u) then i else if Lookup(ts, k) < |ts| then Lookup(ts, k) else |r|);
  }

  lemma KeysKept<Id>(ts: seq<Tree<Id>>, u: Tree<Id>)
    requires AllConfig(ts) && Config(u)
    ensures var r := MergeOne(ts, u);
            && |ts| <= |r| && (forall j :: 0 <= j < |ts| ==> KeyOf(r[j]) == KeyOf(ts[j]))
            && (|r| > |ts| ==> |r| == |ts| + 1 && r[|ts|] == u && Lookup(ts, KeyOf(u)) == |ts|)
  {
  }

  lemma LookupIs<Id>(ts: seq<Tree<Id>>, k: Key, i: nat)
    requires AllConfig(ts) && i <= |ts| && (i < |ts| ==> KeyOf(ts[i]) == k)
    requires forall j :: 0 <= j < i ==> KeyOf(ts[j]) != k
    ensures Lookup(ts, k) == i
  {
  }

  lemma {:induction false} GetMergeKids<Id>(ts: seq<Tree<Id>>, us: seq<Tree<Id>>, k: Key)
    requires AllConfig(ts) && AllConfig(us) && UniqueKeys(us)
    ensures Get(MergeKids(ts, us), k) ==
            if Get(us, k).None? then Get(ts, k)
            else if Get(ts, k).None? then Get(us, k)
            else Some(Merge(Get(ts, k).value, Get(us, k).value))
    decreases |us|
  {
    hide Merge, Config, MergeOne;
    if us == [] {
    } else {
      GetMergeOne(ts, us[0], k);
      GetMergeKids(MergeOne(ts, us[0]), us[1..], k);
      GetTail(us, k);
    }
  }

  lemma GetTail<Id>(us: seq<Tree<Id>>, k: Key)
    requires us != [] && AllConfig(us) && UniqueKeys(us)
    ensures k != KeyOf(us[0]) ==> Get(us, k) == Get(us[1..], k)
    ensures k == KeyOf(us[0]) ==> Get(us, k) == Some(us[0]) && Get(us[1..], k).None?
  {
    if k == KeyOf(us[0]) {
      LookupIs(us[1..], k, |us| - 1);
    }
  }

  lemma UniqueGet<Id>(t: Tree<Id>, k: Key)
    requires Config(t) && Unique(t) && t.lab.Node? && Get(t.kids, k).Some?
    ensures Unique(Get(t.kids, k).value)
  {
  }

  /** After merging, every path leads where the merged tree leads, or else where it led before. */
  lemma {:induction false} MergeAt<Id>(a: Tree<Id>, b: Tree<Id>, path: Path, node: bool)
    requires Config(a) && Config(b) && KeyOf(a) == KeyOf(b) && Unique(b) && a.lab.Node?
    ensures var r, x, y := At(Merge(a, b), path, node), At(a, path, node), At(b, path, node);
            && (y.None? ==> r == x)
            && (x.None? ==> r == y)
            && (x.Some? && y.Some? ==> KeyOf(x.value) == KeyOf(y.value) && r == Some(Merge(x.value, y.value)))
    decreases |path|
  {
    hide Merge, Config, Unique, Lookup, MergeKids;
    if path == [] {
    } else {
      var k := Key(path[0], |path| > 1 || node);
      NodeKids(a, b);
      GetMergeKids(a.kids, b.kids, k);
      var x, y := Get(a.kids, k), Get(b.kids, k);
      GetKey(a.kids, k);
      GetKey(b.kids, k);
      if |path| > 1 && x.Some? && y.Some? {
        UniqueGet(b, k);
        MergeAt(x.value, y.value, path[1..], node);
      }
    }
  }

  lemma NodeKids<Id>(a: Tree<Id>, b: Tree<Id>)
    requires Config(a) && Config(b) && KeyOf(a) == KeyOf(b) && a.lab.Node? && Unique(b)
    ensures AllConfig(a.kids) && AllConfig(b.kids) && UniqueKeys(b.kids)
    ensures Merge(a, b).kids == MergeKids(a.kids, b.kids) && Merge(a, b).lab.Node?
  {
  }

  lemma GetKey<Id>(ts: seq<Tree<Id>>, k: Key)
    requires AllConfig(ts)
    ensures Get(ts, k).Some? ==> Config(Get(ts, k).value) && KeyOf(Get(ts, k).value) == k
  {
  }

  /** Every term takes the value, and every node the kind, of the tree merged last that has it. */
  lemma MergeTakesLast<Id>(a: Tree<Id>, b: Tree<Id>, path: Path)
    requires Config(a) && Config(b) && KeyOf(a) == KeyOf(b) && Unique(b) && a.lab.Node?
    ensures ValueAt(Merge(a, b), path) == if ValueAt(b, path).Some? then ValueAt(b, path) else ValueAt(a, path)
    ensures KindAt(Merge(a, b), path) == if KindAt(b, path).Some? then KindAt(b, path) else KindAt(a, path)
  {
    MergeAt(a, b, path, false);
    MergeAt(a, b, path, true);
  }

  /** Merging keeps keys unique. */
  lemma {:induction false} MergeUnique<Id>(a: Tree<Id>, b: Tree<Id>)
    requires Config(a) && Config(b) && KeyOf(a) == KeyOf(b) && Unique(a) && Unique(b)
    ensures Unique(Merge(a, b))
    decreases b, 0
  {
    if a.lab.Node? {
      MergeKidsUnique(a.kids, b.kids);
    }
  }

  lemma {:induction false} MergeKidsUnique<Id>(ts: seq<Tree<Id>>, us: seq<Tree<Id>>)
    requires AllConfig(ts) && AllConfig(us) && UniqueKeys(ts)
    requires (forall i :: 0 <= i < |ts| ==> Unique(ts[i])) && forall i :: 0 <= i < |us| ==> Unique(us[i])
    ensures var r := MergeKids(ts, us); UniqueKeys(r) && forall i :: 0 <= i < |r| ==> Unique(r[i])
    decreases us, 1
  {
    if us == [] {
    } else {
      var i, r := Lookup(ts, KeyOf(us[0])), MergeOne(ts, us[0]);
      KeysKept(ts, us[0]);
      if i < |ts| {
        MergeUnique(ts[i], us[0]);
      }
      hide Merge, Config, Lookup, Unique;
      assert UniqueKeys(r);
      assert forall j :: 0 <= j < |r| ==> Unique(r[j]);
      MergeKidsUnique(r, us[1..]);
    }
  }

  // ----- a list of trees -----

  /** Sibling names differ at every level, even a node's from a term's. */
  predicate NamesUnique<Id>(t: Tree<Id>)
    requires Config(t)
  {
    t.lab.Node? ==>
      && AllConfig(t.kids)
      && (forall i, j :: 0 <= i < j < |t.kids| ==> KeyOf(t.kids[i]).name != KeyOf(t.kids[j]).name)
      && (forall i :: 0 <= i < |t.kids| ==> NamesUnique(t.kids[i]))
  }

  lemma {:induction false} NamesMakeKeys<Id>(t: Tree<Id>)
    requires Config(t) && NamesUnique(t)
    ensures Unique(t)
  {
    if t.lab.Node? {
      forall i | 0 <= i < |t.kids| ensures Unique(t.kids[i]) {
        NamesMakeKeys(t.kids[i]);
      }
    }
  }

  /** The root of a parsed file, if it has one. */
  predicate RootOk<Id>(root: Option<Tree<Id>>, name: seq<byte>) {
    root.Some? ==> Config(root.value) && root.value.lab.Node? && root.value.lab.name == name
  }

  predicate Mergeable<Id>(roots: seq<Option<Tree<Id>>>, name: seq<byte>) {
    forall i :: 0 <= i < |roots| ==> RootOk(roots[i], name)
  }

  predicate RootChecked<Id>(root: Option<Tree<Id>>, name: seq<byte>)
    requires RootOk(root, name)
  {
    root.Some? ==> NamesUnique(root.value)
  }

  predicate Checked<Id>(roots: seq<Option<Tree<Id>>>, name: seq<byte>) {
    Mergeable(roots, name) && forall i :: 0 <= i < |roots| ==> RootChecked(roots[i], name)
  }

  /** The last of the trees that has a value at a path. */
  ghost function LastValue<Id>(roots: seq<Option<Tree<Id>>>, name: seq<byte>, path: Path): Option<Tree<Id>>
    requires Mergeable(roots, name)
    decreases |roots|
  {
    if roots == [] then None else
    var n := |roots| - 1;
    if roots[n].Some? && ValueAt(roots[n].value, path).Some? then ValueAt(roots[n].value, path)
    else LastValue(roots[..n], name, path)
  }

  /** What the merged root must satisfy. */
  ghost predicate Merges<Id>(roots: seq<Option<Tree<Id>>>, name: seq<byte>, root: Option<Tree<Id>>)
    requires Mergeable(roots, name)
  {
    && (root.None? <==> forall i :: 0 <= i < |roots| ==> roots[i].None?)
    && RootOk(root, name) && (root.Some? ==> Unique(root.value))
    && (forall path :: (if root.Some? then ValueAt(root.value, path) else None) == LastValue(roots, name, path))
  }

  lemma MergesNone<Id>(name: seq<byte>)
    ensures Merges<Id>([], name, None)
  {
  }

  /** One more tree: adopted as the root, merged into it, or nothing. */
  function Adopt<Id>(root: Option<Tree<Id>>, t: Option<Tree<Id>>, name: seq<byte>): (r: Option<Tree<Id>>)
    requires RootOk(root, name) && RootOk(t, name)
    ensures RootOk(r, name)
  {
    if root.None? then t else if t.None? then root else Some(Merge(root.value, t.value))
  }

  lemma MergesNext<Id>(roots: seq<Option<Tree<Id>>>, name: seq<byte>, root: Option<Tree<Id>>, t: Option<Tree<Id>>)
    requires Mergeable(roots, name) && RootOk(t, name) && Merges(roots, name, root) && RootChecked(t, name)
    ensures Mergeable(roots + [t], name) && Merges(roots + [t], name, Adopt(root, t, name))
  {
    var now := Adopt(root, t, name);
    assert (roots + [t])[..|roots|] == roots && (roots + [t])[|roots|] == t;
    assert forall i :: 0 <= i < |roots| ==> (roots + [t])[i] == roots[i];
    hide Unique, NamesUnique, Merge, At;
    if t.Some? {
      NamesMakeKeys(t.value);
      if root.Some? {
        MergeUnique(root.value, t.value);
      }
    }
    forall path: Path
      ensures (if now.Some? then ValueAt(now.value, path) else None) == LastValue(roots + [t], name, path)
    {
      if root.Some? && t.Some? {
        MergeTakesLast(root.value, t.value, path);
      }
    }
  }

  /** The loop over the files, in the order of inclusion; fails on a file that defines a name twice. */
  method MergeAll<Id>(roots: seq<Option<Tree<Id>>>, name: seq<byte>) returns (ok: bool, root: Option<Tree<Id>>)
    requires Mergeable(roots, name)
    ensures ok <==> Checked(roots, name)
    ensures ok ==> Merges(roots, name, root)
  {
    hide NamesUnique, Merges, ValueAt, RootOk, RootChecked, Adopt;
    MergesNone<Id>(name);
    ok, root := true, None;
    var i := 0;
    while i < |roots|
      invariant 0 <= i <= |roots| && Mergeable(roots[..i], name) && Checked(roots[..i], name)
      invariant Merges(roots[..i], name, root)
      invariant RootOk(root, name)
    {
      var t := roots[i];
      if !RootChecked(t, name) {
        return false, root;
      }
      assert roots[..i + 1] == roots[..i] + [t];
      MergesNext(roots[..i], name, root, t);
      root := Adopt(root, t, name);
      i := i + 1;
    }
    assert roots[..i] == roots;
  }

  // ----- copying without overwriting: the earlier definition wins -----

  function Copy<Id>(a: Tree<Id>, b: Tree<Id>): (r: Tree<Id>)
    requires Config(a) && Config(b) && KeyOf(a) == KeyOf(b)
    ensures Config(r) && KeyOf(r) == KeyOf(a) && r.id == a.id && r.lab == a.lab
    decreases b, 0
  {
    if a.lab.Node? then Tree(a.id, a.lab, CopyKids(a.kids, b.kids)) else a
  }

  function CopyKids<Id>(ts: seq<Tree<Id>>, us: seq<Tree<Id>>): (r: seq<Tree<Id>>)
    requires AllConfig(ts) && AllConfig(us)
    ensures AllConfig(r)
    decreases us, 1
  {
    if us == [] then ts else CopyKids(CopyOne(ts, us[0]), us[1..])
  }

  function CopyOne<Id>(ts: seq<Tree<Id>>, u: Tree<Id>): (r: seq<Tree<Id>>)
    requires AllConfig(ts) && Config(u)
    ensures AllConfig(r)
    decreases u, 1
  {
    var i := Lookup(ts, KeyOf(u));
    if i < |ts| then ts[i := Copy(ts[i], u)] else ts + [u]
  }

  lemma GetCopyOne<Id>(ts: seq<Tree<Id>>, u: Tree<Id>, k: Key)
    requires AllConfig(ts) && Config(u)
    ensures Get(CopyOne(ts, u), k) ==
            if k != KeyOf(u) then Get(ts, k)
            else if Get(ts, k).Some? then Some(Copy(Get(ts, k).value, u))
            else Some(u)
  {
    hide Copy;
    var i, r := Lookup(ts, KeyOf(u)), CopyOne(ts, u);
    assert forall j :: 0 <= j < |ts| ==> KeyOf(r[j]) == KeyOf(ts[j]);
    LookupIs(r, k, if k == KeyOf(u) then i else if Lookup(ts, k) < |ts| then Lookup(ts, k) else |r|);
  }

  lemma {:induction false} GetCopyKids<Id>(ts: seq<Tree<Id>>, us: seq<Tree<Id>>, k: Key)
    requires AllConfig(ts) && AllConfig(us) && UniqueKeys(us)
    ensures Get(CopyKids(ts, us), k) ==
            if Get(us, k).None? then Get(ts, k)
            else if Get(ts, k).None? then Get(us, k)
            else Some(Copy(Get(ts, k).value, Get(us, k).value))
    decreases |us|
  {
    hide Copy, Config, CopyOne;
    if us == [] {
    } else {
      GetCopyOne(ts, us[0], k);
      GetCopyKids(CopyOne(ts, us[0]), us[1..], k);
      GetTail(us, k);
    }
  }

  /** After copying, every path leads where it led before, or else where the copied tree leads. */
  lemma {:induction false} CopyAt<Id>(a: Tree<Id>, b: Tree<Id>, path: Path, node: bool)
    requires Config(a) && Config(b) && KeyOf(a) == KeyOf(b) && Unique(b) && a.lab.Node?
    ensures var r, x, y := At(Copy(a, b), path, node), At(a, path, node), At(b, path, node);
            && (y.None? ==> r == x)
            && (x.None? ==> r == y)
            && (x.Some? && y.Some? ==> KeyOf(x.value) == KeyOf(y.value) && r == Some(Copy(x.value, y.value)))
    decreases |path|
  {
    hide Copy, Config, Unique, Lookup, CopyKids;
    if path == [] {
    } else {
      var k := Key(path[0], |path| > 1 || node);
      CopiedKids(a, b);
      GetCopyKids(a.kids, b.kids, k);
      var x, y := Get(a.kids, k), Get(b.kids, k);
      GetKey(a.kids, k);
      GetKey(b.kids, k);
      if |path| > 1 && x.Some? && y.Some? {
        UniqueGet(b, k);
        CopyAt(x.value, y.value, path[1..], node);
      }
    }
  }

  lemma CopiedKids<Id>(a: Tree<Id>, b: Tree<Id>)
    requires Config(a) && Config(b) && KeyOf(a) == KeyOf(b) && a.lab.Node? && Unique(b)
    ensures AllConfig(a.kids) && AllConfig(b.kids) && UniqueKeys(b.kids)
    ensures Copy(a, b).kids == CopyKids(a.kids, b.kids) && Copy(a, b).lab.Node?
  {
  }

  /** Copying is a left-biased union: what was there stays, and what was missing is added. */
  lemma CopyKeepsFirst<Id>(a: Tree<Id>, b: Tree<Id>, path: Path)
    requires Config(a) && Config(b) && KeyOf(a) == KeyOf(b) && Unique(b) && a.lab.Node?
    ensures ValueAt(Copy(a, b), path) == if ValueAt(a, path).Some? then ValueAt(a, path) else ValueAt(b, path)
    ensures KindAt(Copy(a, b), path) == if KindAt(a, path).Some? then KindAt(a, path) else KindAt(b, path)
  {
    CopyAt(a, b, path, false);
    CopyAt(a, b, path, true);
  }

  /** Everything in `b` has a counterpart in `a`. */
  predicate Covers<Id>(a: Tree<Id>, b: Tree<Id>)
    requires Config(a) && Config(b)
    decreases b
  {
    a.lab.Node? && b.lab.Node? ==>
      forall i :: 0 <= i < |b.kids| ==>
        (assert Config(b.kids[i]);
         var j := Lookup(a.kids, KeyOf(b.kids[i]));
         j < |a.kids| && Covers(a.kids[j], b.kids[i]))
  }

  /** Copying what is there already changes nothing. */
  lemma {:induction false} CoveredCopy<Id>(a: Tree<Id>, b: Tree<Id>)
    requires Config(a) && Config(b) && KeyOf(a) == KeyOf(b) && Covers(a, b)
    ensures Copy(a, b) == a
    decreases b, 0
  {
    if a.lab.Node? {
      CoveredCopies(a.kids, b.kids);
    }
  }

  lemma {:induction false} CoveredCopies<Id>(ts: seq<Tree<Id>>, us: seq<Tree<Id>>)
    requires AllConfig(ts) && AllConfig(us)
    requires forall i :: 0 <= i < |us| ==>
               (var j := Lookup(ts, KeyOf(us[i])); j < |ts| && Covers(ts[j], us[i]))
    ensures CopyKids(ts, us) == ts
    decreases us, 1
  {
    hide Copy, Lookup, Covers;
    if us == [] {
    } else {
      var j := Lookup(ts, KeyOf(us[0]));
      CoveredCopy(ts[j], us[0]);
      assert CopyOne(ts, us[0]) == ts;
      CoveredCopies(ts, us[1..]);
    }
  }

  lemma {:induction false} CoversItself<Id>(a: Tree<Id>)
    requires Config(a) && Unique(a)
    ensures Covers(a, a)
  {
    if a.lab.Node? {
      forall i | 0 <= i < |a.kids|
        ensures Lookup(a.kids, KeyOf(a.kids[i])) == i && Covers(a.kids[i], a.kids[i])
      {
        LookupIs(a.kids, KeyOf(a.kids[i]), i);
        CoversItself(a.kids[i]);
      }
    }
  }

  /** A tree covers what was copied into it. */
  lemma {:induction false} CopyCovers<Id>(a: Tree<Id>, b: Tree<Id>)
    requires Config(a) && Config(b) && KeyOf(a) == KeyOf(b) && Unique(b)
    ensures Covers(Copy(a, b), b)
  {
    if a.lab.Node? {
      forall i | 0 <= i < |b.kids|
        ensures var ts := Copy(a, b).kids;
                var j := Lookup(ts, KeyOf(b.kids[i])); j < |ts| && Covers(ts[j], b.kids[i])
      {
        var u := b.kids[i];
        var k := KeyOf(u);
        LookupIs(b.kids, k, i);
        GetCopyKids(a.kids, b.kids, k);
        GetKey(a.kids, k);
        if Get(a.kids, k).None? {
          CoversItself(u);
        } else {
          CopyCovers(Get(a.kids, k).value, u);
        }
      }
    }
  }

  /** Copying twice is copying once. */
  lemma CopyIdempotent<Id>(a: Tree<Id>, b: Tree<Id>)
    requires Config(a) && Config(b) && KeyOf(a) == KeyOf(b) && Unique(b)
    ensures Copy(Copy(a, b), b) == Copy(a, b)
    ensures Copy(b, b) == b
  {
    CopyCovers(a, b);
    CoveredCopy(Copy(a, b), b);
    CoversItself(b);
    CoveredCopy(b, b);
  }

  // ----- places -----

  /** Those of `us` that have no counterpart in `ts`. */
  function Missing<Id>(ts: seq<Tree<Id>>, us: seq<Tree<Id>>): seq<Tree<Id>>
    requires AllConfig(ts) && AllConfig(us)
  {
    if us == [] then []
    else (if Get(ts, KeyOf(us[0])).None? then [us[0]] else []) + Missing(ts, us[1..])
  }

  /** Children that have the same keys, as far as `us` asks, miss the same. */
  lemma {:induction false} MissingSame<Id>(ts: seq<Tree<Id>>, now: seq<Tree<Id>>, us: seq<Tree<Id>>)
    requires AllConfig(ts) && AllConfig(now) && AllConfig(us)
    requires forall i :: 0 <= i < |us| ==> (Get(ts, KeyOf(us[i])).None? <==> Get(now, KeyOf(us[i])).None?)
    ensures Missing(ts, us) == Missing(now, us)
    decreases |us|
  {
    hide Get, Config;
    if us == [] {
    } else {
      assert forall i :: 0 <= i < |us[1..]| ==> us[1..][i] == us[i + 1];
      MissingSame(ts, now, us[1..]);
    }
  }

  lemma NoneThere<Id>(us: seq<Tree<Id>>)
    requires us == []
    ensures AllConfig(us) && forall k :: Get(us, k).None?
  {
  }

  /** A child with its counterpart among `us` merged into it. */
  function Merged<Id>(t: Tree<Id>, us: seq<Tree<Id>>): Tree<Id>
    requires Config(t) && AllConfig(us)
  {
    var u := Get(us, KeyOf(t));
    if u.Some? then Merge(t, u.value) else t
  }

  lemma MergeOnePlaces<Id>(ts: seq<Tree<Id>>, u: Tree<Id>)
    requires AllConfig(ts) && Config(u) && UniqueKeys(ts)
    ensures var r, k := MergeOne(ts, u), KeyOf(u);
            && UniqueKeys(r) && |ts| <= |r| && (forall j :: 0 <= j < |ts| ==> KeyOf(r[j]) == KeyOf(ts[j]))
            && (forall j :: 0 <= j < |ts| ==> r[j] == if KeyOf(ts[j]) == k then Merge(ts[j], u) else ts[j])
            && r[|ts|..] == if Get(ts, k).None? then [u] else []
  {
    hide Merge;
  }

  /**
   Where children end up: those that were there stay in place, each with its counterpart merged
   into it, and those that were missing stand behind them in the order they had.
   */
  lemma {:induction false} MergePlaces<Id>(ts: seq<Tree<Id>>, us: seq<Tree<Id>>)
    requires AllConfig(ts) && AllConfig(us) && UniqueKeys(ts) && UniqueKeys(us)
    ensures var r := MergeKids(ts, us);
            && |ts| <= |r| && r[|ts|..] == Missing(ts, us)
            && forall j :: 0 <= j < |ts| ==> r[j] == Merged(ts[j], us)
    decreases |us|
  {
    hide Merge, MergeOne, Lookup, Get;
    if us == [] {
      NoneThere(us);
    } else {
      var u, rest, now := us[0], us[1..], MergeOne(ts, us[0]);
      MergeOnePlaces(ts, u);
      MergePlaces(now, rest);
      var r := MergeKids(now, rest);
      forall i | 0 <= i < |rest| ensures Get(ts, KeyOf(rest[i])).None? <==> Get(now, KeyOf(rest[i])).None? {
        assert rest[i] == us[i + 1];
        GetMergeOne(ts, u, KeyOf(rest[i]));
      }
      MissingSame(ts, now, rest);
      if Get(ts, KeyOf(u)).None? {
        assert now[|ts|..][0] == u == now[|ts|] && r[|ts|..] == [r[|ts|]] + r[|ts| + 1..];
        GetTail(us, KeyOf(u));
      }
      forall j | 0 <= j < |ts| ensures r[j] == Merged(ts[j], us) {
        GetTail(us, KeyOf(ts[j]));
        assert KeyOf(now[j]) == KeyOf(ts[j]);
      }
    }
  }

  /** A child with its counterpart among `us` copied into it. */
  function Copied<Id>(t: Tree<Id>, us: seq<Tree<Id>>): Tree<Id>
    requires Config(t) && AllConfig(us)
  {
    var u := Get(us, KeyOf(t));
    if u.Some? then Copy(t, u.value) else t
  }

  lemma CopyOnePlaces<Id>(ts: seq<Tree<Id>>, u: Tree<Id>)
    requires AllConfig(ts) && Config(u) && UniqueKeys(ts)
    ensures var r, k := CopyOne(ts, u), KeyOf(u);
            && UniqueKeys(r) && |ts| <= |r| && (forall j :: 0 <= j < |ts| ==> KeyOf(r[j]) == KeyOf(ts[j]))
            && (forall j :: 0 <= j < |ts| ==> r[j] == if KeyOf(ts[j]) == k then Copy(ts[j], u) else ts[j])
            && r[|ts|..] == if Get(ts, k).None? then [u] else []
  {
    hide Copy;
  }

  /**
   Where children end up: those that were there stay in place, each with its counterpart copied
   into it, and those that were missing stand behind them in the order they had.
   */
  lemma {:induction false} CopyPlaces<Id>(ts: seq<Tree<Id>>, us: seq<Tree<Id>>)
    requires AllConfig(ts) && AllConfig(us) && UniqueKeys(ts) && UniqueKeys(us)
    ensures var r := CopyKids(ts, us);
            && |ts| <= |r| && r[|ts|..] == Missing(ts, us)
            && forall j :: 0 <= j < |ts| ==> r[j] == Copied(ts[j], us)
    decreases |us|
  {
    hide Copy, CopyOne, Lookup, Get;
    if us == [] {
      NoneThere(us);
    } else {
      var u, rest, now := us[0], us[1..], CopyOne(ts, us[0]);
      CopyOnePlaces(ts, u);
      CopyPlaces(now, rest);
      var r := CopyKids(now, rest);
      forall i | 0 <= i < |rest| ensures Get(ts, KeyOf(rest[i])).None? <==> Get(now, KeyOf(rest[i])).None? {
        assert rest[i] == us[i + 1];
        GetCopyOne(ts, u, KeyOf(rest[i]));
      }
      MissingSame(ts, now, rest);
      if Get(ts, KeyOf(u)).None? {
        assert now[|ts|..][0] == u == now[|ts|] && r[|ts|..] == [r[|ts|]] + r[|ts| + 1..];
        GetTail(us, KeyOf(u));
      }
      forall j | 0 <= j < |ts| ensures r[j] == Copied(ts[j], us) {
        GetTail(us, KeyOf(ts[j]));
        assert KeyOf(now[j]) == KeyOf(ts[j]);
      }
    }
  }
}
