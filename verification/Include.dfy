/** Include processing: which files make up a configuration, in what order they are merged. */
module Include {

  /**
   What parsing one file on its own gives: whether there is a root node, what it includes, whether
   an include was malformed.
   */
  datatype Content<F> = Content(hasRoot: bool, includes: seq<F>, failed: bool)

  /** A file that can be used: something was read, and no include failed. */
  predicate Usable<F>(c: Content<F>) {
    (c.hasRoot || c.includes != []) && !c.failed
  }

  datatype Outcome<F> = Loaded(files: seq<F>) | Circular(file: F, includes: F) | Broken(file: F)

  /** Loading `src` while the files of `path` are being loaded. */
  function Load<F(==)>(disk: map<F, Content<F>>, src: F, path: seq<F>): Outcome<F>
    requires src !in path
    decreases disk.Keys - (set f | f in path), 1, 0
  {
    if src !in disk || !Usable(disk[src]) then Broken(src) else
    match LoadAll(disk, src, disk[src].includes, path)
    case Loaded(files) => Loaded(files + [src])
    case failure => failure
  }

  function LoadAll<F(==)>(disk: map<F, Content<F>>, src: F, rest: seq<F>, path: seq<F>): Outcome<F>
    requires src in disk && src !in path
    decreases disk.Keys - (set f | f in path), 0, |rest|
  {
    if rest == [] then Loaded([]) else
    var path' := path + [src];
    if rest[0] in path' then Circular(src, rest[0]) else
    PathGrows(disk.Keys, path, src);
    match Load(disk, rest[0], path')
    case Loaded(first) => (
      match LoadAll(disk, src, rest[1..], path)
      case Loaded(more) => Loaded(first + more)
      case failure => failure)
    case failure => failure
  }

  lemma PathGrows<F>(keys: set<F>, path: seq<F>, src: F)
    requires src in keys && src !in path
    ensures keys - (set f | f in path + [src]) < keys - (set f | f in path)
  {
    var before, after := set f | f in path, set f | f in path + [src];
    assert src in keys - before && src !in keys - after;
  }

  /** A chain of inclusions, every file but the last one usable. */
  predicate Chain<F(==)>(disk: map<F, Content<F>>, w: seq<F>) {
    && w != []
    && forall i :: 0 <= i < |w| - 1 ==> w[i] in disk && Usable(disk[w[i]]) && w[i + 1] in disk[w[i]].includes
  }

  predicate Repeats<F(==)>(w: seq<F>) {
    w != [] && w[|w| - 1] in w[..|w| - 1]
  }

  predicate EndsBroken<F(==)>(disk: map<F, Content<F>>, w: seq<F>) {
    w != [] && (w[|w| - 1] !in disk || !Usable(disk[w[|w| - 1]]))
  }

  /** Once loading succeeds, every chain from the file ends at a usable file not seen on the way. */
  lemma {:induction false} LoadedChain<F>(disk: map<F, Content<F>>, src: F, path: seq<F>, w: seq<F>)
    requires src !in path && Load(disk, src, path).Loaded? && Chain(disk, w) && w[0] == src
    ensures !EndsBroken(disk, w) && w[|w| - 1] !in path + w[..|w| - 1]
    ensures w[|w| - 1] in Load(disk, src, path).files
    decreases |w|
  {
    var files := Load(disk, src, path).files;
    if |w| > 1 {
      var k :| 0 <= k < |disk[src].includes| && disk[src].includes[k] == w[1];
      IncludeLoaded(disk, src, disk[src].includes, path, k);
      var v := w[1..];
      assert forall i :: 0 <= i < |v| ==> v[i] == w[i + 1];
      LoadedChain(disk, w[1], path + [src], v);
      var last := w[|w| - 1];
      assert w[..|w| - 1] == [src] + w[1..][..|w[1..]| - 1];
      assert last !in (path + [src]) + w[1..][..|w[1..]| - 1];
    }
  }

  /** Every include of a loaded file was loaded below it. */
  lemma {:induction false} IncludeLoaded<F>(disk: map<F, Content<F>>, src: F, rest: seq<F>, path: seq<F>, k: nat)
    requires src in disk && src !in path && LoadAll(disk, src, rest, path).Loaded? && k < |rest|
    ensures rest[k] !in path + [src] && Load(disk, rest[k], path + [src]).Loaded?
    ensures forall f :: f in Load(disk, rest[k], path + [src]).files ==> f in LoadAll(disk, src, rest, path).files
    decreases |rest|
  {
    PathGrows(disk.Keys, path, src);
    if k == 0 {
    } else {
      IncludeLoaded(disk, src, rest[1..], path, k - 1);
    }
  }

  /** The chain shows the failure: it ends in the broken file, or at a file already on the way. */
  predicate Explains<F(==)>(disk: map<F, Content<F>>, path: seq<F>, w: seq<F>, r: Outcome<F>) {
    match r
    case Loaded(_) => true
    case Broken(file) => EndsBroken(disk, w) && w[|w| - 1] == file
    case Circular(file, includes) =>
      |w| > 1 && w[|w| - 2] == file && w[|w| - 1] == includes && includes in path + w[..|w| - 1]
  }

  /** When loading fails, some chain shows why. */
  lemma {:induction false} FailureChain<F>(disk: map<F, Content<F>>, src: F, path: seq<F>) returns (w: seq<F>)
    requires src !in path && !Load(disk, src, path).Loaded?
    ensures Chain(disk, w) && w[0] == src
    ensures Explains(disk, path, w, Load(disk, src, path))
    decreases disk.Keys - (set f | f in path), 1, 0
  {
    if src !in disk || !Usable(disk[src]) {
      w := [src];
    } else {
      w := FailureBelow(disk, src, disk[src].includes, path);
    }
  }

  lemma {:induction false} FailureBelow<F>(disk: map<F, Content<F>>, src: F, rest: seq<F>, path: seq<F>)
    returns (w: seq<F>)
    requires src in disk && Usable(disk[src]) && src !in path && !LoadAll(disk, src, rest, path).Loaded?
    requires forall f :: f in rest ==> f in disk[src].includes
    ensures Chain(disk, w) && w[0] == src
    ensures Explains(disk, path, w, LoadAll(disk, src, rest, path))
    decreases disk.Keys - (set f | f in path), 0, |rest|
  {
    PathGrows(disk.Keys, path, src);
    var path' := path + [src];
    if rest[0] in path' {
      w := [src, rest[0]];
    } else if !Load(disk, rest[0], path').Loaded? {
      var v := FailureChain(disk, rest[0], path');
      w := [src] + v;
      assert forall i :: 0 <= i < |w| - 1 ==> w[i + 1] == v[i];
      assert forall i :: 1 <= i < |w| ==> w[i] == v[i - 1];
      assert w[..|w| - 1] == [src] + v[..|v| - 1];
    } else {
      w := FailureBelow(disk, src, rest[1..], path);
    }
  }

  ghost predicate Reaches<F(!new)>(disk: map<F, Content<F>>, src: F, f: F) {
    exists w :: Chain(disk, w) && w[0] == src && w[|w| - 1] == f
  }

  ghost predicate CycleReachable<F(!new)>(disk: map<F, Content<F>>, src: F) {
    exists w :: Chain(disk, w) && w[0] == src && Repeats(w)
  }

  ghost predicate BrokenReachable<F(!new)>(disk: map<F, Content<F>>, src: F) {
    exists w :: Chain(disk, w) && w[0] == src && EndsBroken(disk, w)
  }

  /** Loading succeeds exactly when neither a cycle nor a broken file can be reached. */
  lemma LoadsIff<F(!new)>(disk: map<F, Content<F>>, src: F)
    ensures Load(disk, src, []).Loaded? <==> !CycleReachable(disk, src) && !BrokenReachable(disk, src)
    ensures Load(disk, src, []).Circular? ==> CycleReachable(disk, src)
    ensures Load(disk, src, []).Broken? ==> BrokenReachable(disk, src)
  {
    if Load(disk, src, []).Loaded? {
      forall w | Chain(disk, w) && w[0] == src ensures !Repeats(w) && !EndsBroken(disk, w) {
        LoadedChain(disk, src, [], w);
      }
    } else {
      var w := FailureChain(disk, src, []);
      assert [] + w[..|w| - 1] == w[..|w| - 1];
      assert Repeats(w) || EndsBroken(disk, w);
    }
  }

  /** With no broken file in reach, a circular include is reported exactly when there is one. */
  lemma CircularIff<F(!new)>(disk: map<F, Content<F>>, src: F)
    requires !BrokenReachable(disk, src)
    ensures Load(disk, src, []).Circular? <==> CycleReachable(disk, src)
  {
    LoadsIff(disk, src);
  }

  // ----- order -----

  /** In the order of merging, a file comes after everything it includes. */
  ghost predicate IncludesFirst<F>(disk: map<F, Content<F>>, files: seq<F>) {
    forall i :: 0 <= i < |files| ==>
      files[i] in disk && forall g :: g in disk[files[i]].includes ==> g in files[..i]
  }

  lemma IncludesFirstConcat<F>(disk: map<F, Content<F>>, a: seq<F>, b: seq<F>)
    requires IncludesFirst(disk, a) && IncludesFirst(disk, b)
    ensures IncludesFirst(disk, a + b)
  {
    forall i | 0 <= i < |a + b|
      ensures (a + b)[i] in disk && forall g :: g in disk[(a + b)[i]].includes ==> g in (a + b)[..i]
    {
      if i < |a| {
        assert (a + b)[..i] == a[..i];
      } else {
        assert (a + b)[..i] == a + b[..i - |a|];
      }
    }
  }

  /** The files come in post-order: included files first, the including one at the end. */
  lemma {:induction false} LoadOrder<F>(disk: map<F, Content<F>>, src: F, path: seq<F>)
    requires src !in path && Load(disk, src, path).Loaded?
    ensures var files := Load(disk, src, path).files;
            files != [] && files[|files| - 1] == src && IncludesFirst(disk, files)
    decreases disk.Keys - (set f | f in path), 1, 0
  {
    var includes := disk[src].includes;
    var below := LoadAll(disk, src, includes, path).files;
    LoadAllOrder(disk, src, includes, path);
    forall g | g in includes ensures g in below {
      var k :| 0 <= k < |includes| && includes[k] == g;
      IncludeLoaded(disk, src, includes, path, k);
      PathGrows(disk.Keys, path, src);
      LoadOrder(disk, g, path + [src]);
    }
    var files := below + [src];
    forall i | 0 <= i < |files|
      ensures files[i] in disk && forall g :: g in disk[files[i]].includes ==> g in files[..i]
    {
      if i < |below| {
        assert files[..i] == below[..i];
      } else {
        assert files[..i] == below;
      }
    }
  }

  lemma {:induction false} LoadAllOrder<F>(disk: map<F, Content<F>>, src: F, rest: seq<F>, path: seq<F>)
    requires src in disk && src !in path && LoadAll(disk, src, rest, path).Loaded?
    ensures IncludesFirst(disk, LoadAll(disk, src, rest, path).files)
    decreases disk.Keys - (set f | f in path), 0, |rest|
  {
    if rest == [] {
    } else {
      PathGrows(disk.Keys, path, src);
      LoadOrder(disk, rest[0], path + [src]);
      LoadAllOrder(disk, src, rest[1..], path);
      IncludesFirstConcat(disk, Load(disk, rest[0], path + [src]).files, LoadAll(disk, src, rest[1..], path).files);
    }
  }

  /** The files of a successful load are exactly those the first one reaches. */
  lemma LoadedFiles<F(!new)>(disk: map<F, Content<F>>, src: F, f: F)
    requires Load(disk, src, []).Loaded?
    ensures f in Load(disk, src, []).files <==> Reaches(disk, src, f)
  {
    if f in Load(disk, src, []).files {
      var w := ReachedFrom(disk, src, [], f);
    }
    if Reaches(disk, src, f) {
      var w :| Chain(disk, w) && w[0] == src && w[|w| - 1] == f;
      LoadedChain(disk, src, [], w);
    }
  }

  lemma {:induction false} ReachedFrom<F>(disk: map<F, Content<F>>, src: F, path: seq<F>, f: F) returns (w: seq<F>)
    requires src !in path && Load(disk, src, path).Loaded? && f in Load(disk, src, path).files
    ensures Chain(disk, w) && w[0] == src && w[|w| - 1] == f
    decreases disk.Keys - (set f | f in path), 1, 0
  {
    if f == src {
      w := [src];
    } else {
      w := ReachedBelow(disk, src, disk[src].includes, path, f);
    }
  }

  lemma {:induction false} ReachedBelow<F>(disk: map<F, Content<F>>, src: F, rest: seq<F>, path: seq<F>, f: F)
    returns (w: seq<F>)
    requires src in disk && Usable(disk[src]) && src !in path && LoadAll(disk, src, rest, path).Loaded?
    requires f in LoadAll(disk, src, rest, path).files && forall g :: g in rest ==> g in disk[src].includes
    ensures Chain(disk, w) && w[0] == src && w[|w| - 1] == f
    decreases disk.Keys - (set f | f in path), 0, |rest|
  {
    PathGrows(disk.Keys, path, src);
    if f in Load(disk, rest[0], path + [src]).files {
      var v := ReachedFrom(disk, rest[0], path + [src], f);
      w := [src] + v;
      assert forall i :: 0 <= i < |w| - 1 ==> w[i + 1] == v[i];
      assert forall i :: 1 <= i < |w| ==> w[i] == v[i - 1];
    } else {
      w := ReachedBelow(disk, src, rest[1..], path, f);
    }
  }

  // ----- the loader -----

  /** The parser's include machinery: the files being loaded, innermost last. */
  class Loader<F(==)> {
    const disk: map<F, Content<F>>
    var srcQueue: seq<F>

    constructor (d: map<F, Content<F>>)
      ensures disk == d && srcQueue == []
    {
      disk, srcQueue := d, [];
    }

    /** The files to merge in order; none if loading fails. */
    method ParseOne(src: F) returns (astList: seq<F>)
      requires src !in srcQueue
      modifies this
      ensures var r := Load(disk, src, old(srcQueue));
              astList == if r.Loaded? then r.files else []
      ensures astList != [] ==> srcQueue == old(srcQueue)
      ensures Load(disk, src, old(srcQueue)).Loaded? ==> astList != []
      decreases disk.Keys - (set f | f in srcQueue)
    {
      ghost var path := srcQueue;
      srcQueue := srcQueue + [src];
      astList := [];
      if src !in disk || !Usable(disk[src]) {
        return;
      }
      PathGrows(disk.Keys, path, src);
      var includeList := disk[src].includes;
      var i := 0;
      while i < |includeList|
        invariant 0 <= i <= |includeList| && srcQueue == path + [src]
        invariant LoadAll(disk, src, includeList, path) == After(astList, LoadAll(disk, src, includeList[i..], path))
      {
        assert includeList[i..][1..] == includeList[i + 1..];
        if includeList[i] in srcQueue {
          return [];
        }
        var includeAstList := ParseOne(includeList[i]);
        if includeAstList == [] {
          return [];
        }
        AfterAppend(astList, includeAstList, LoadAll(disk, src, includeList[i + 1..], path));
        astList := astList + includeAstList;
        i := i + 1;
      }
      srcQueue := srcQueue[..|srcQueue| - 1];
      assert srcQueue == path && astList + [] == astList;
      astList := astList + [src];
    }
  }

  function After<F>(have: seq<F>, rest: Outcome<F>): Outcome<F> {
    match rest
    case Loaded(files) => Loaded(have + files)
    case failure => failure
  }

  lemma AfterAppend<F>(a: seq<F>, b: seq<F>, rest: Outcome<F>)
    ensures After(a, After(b, rest)) == After(a + b, rest)
  {
    if rest.Loaded? {
      assert a + (b + rest.files) == (a + b) + rest.files;
    }
  }
}
