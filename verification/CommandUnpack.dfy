/** Reading a command pack back, section by section, and whole sessions of packing and unpacking. */
module CommandUnpack {
  import opened Bytes
  import opened CommandPack

  const SIZE_T: nat := 0x1_0000_0000_0000_0000

  /** What a requester's handler does with a section: how many words it asks for, and what it says of them. */
  datatype Handling = Handling(want: nat, content: bool)

  class CommandDataUnpacker {
    var data: seq<byte>
    var readPos: nat
    var curSecOffset: nat
    var curSecLen: uint32

    constructor (m: seq<byte>)
      ensures data == m && readPos == 0 && curSecOffset == 0 && curSecLen == 0
    {
      data, readPos, curSecOffset, curSecLen := m, 0, 0, 0;
    }

    /** The next `n` bytes, if the pack has them. */
    method Read(n: nat) returns (ok: bool, b: seq<byte>)
      modifies this`readPos
      ensures ok <==> old(readPos) + n <= |data|
      ensures ok ==> readPos == old(readPos) + n && b == data[old(readPos)..readPos]
      ensures !ok ==> readPos == old(readPos)
    {
      if readPos + n > |data| {
        return false, [];
      }
      b := data[readPos..readPos + n];
      readPos := readPos + n;
      ok := true;
    }

    method PackBegin() returns (ok: bool, cmd: seq<byte>)
      modifies this`readPos, this`curSecLen, this`curSecOffset
      ensures ok <==> |data| >= 4
      ensures ok ==> cmd == data[..4]
      ensures curSecOffset == 0 && curSecLen == 4
    {
      readPos := 0;
      curSecLen := 4;
      curSecOffset := readPos;
      ok, cmd := Read(4);
    }

    /** Check the magic word, note where the section starts and how long it says it is. */
    method BeginSection() returns (ok: bool, cmd: seq<byte>)
      requires readPos <= |data|
      modifies this`readPos, this`curSecLen, this`curSecOffset
      ensures ok <==> old(readPos) + 12 <= |data| && data[old(readPos)..old(readPos) + 4] == LE32(SECTION_MAGIC)
      ensures ok ==> readPos == old(readPos) + 12 && curSecOffset == old(readPos)
      ensures ok ==> cmd == data[old(readPos) + 4..old(readPos) + 8]
      ensures ok ==> curSecLen == FromLE(data[old(readPos) + 8..old(readPos) + 12])
    {
      hide LE32, FromLE;
      curSecOffset := readPos;
      var magic, len;
      ok, magic := Read(4);
      cmd := [];
      if !ok {
        return;
      }
      if magic != LE32(SECTION_MAGIC) {
        return false, cmd;
      }
      ok, cmd := Read(4);
      if !ok {
        return;
      }
      ok, len := Read(4);
      if ok {
        Pow256Values();
        FromLEBound(len);
        curSecLen := FromLE(len);
      }
    }

    /** Jump to the end of the current section; is there another one? Sizes are 64-bit and wrap. */
    method NextSection() returns (ok: bool)
      modifies this`readPos
      ensures readPos == curSecOffset + curSecLen
      ensures |data| >= 4 ==> (ok <==> readPos < |data| - 4)
      ensures |data| < 4 ==> (ok <==> readPos < |data| + SIZE_T - 4)
    {
      readPos := curSecOffset + curSecLen;
      ok := readPos < if |data| >= 4 then |data| - 4 else |data| + SIZE_T - 4;
    }

    /** The closing command, which must be the last word. */
    method PackEnd() returns (ok: bool, cmd: seq<byte>)
      modifies this`readPos
      ensures ok <==> old(readPos) + 4 == |data|
      ensures ok ==> cmd == data[old(readPos)..] && readPos == |data|
    {
      ok, cmd := Read(4);
      if ok {
        ok := readPos == |data|;
      }
    }

    /** A handler that asks for `want` words of the section it is given, and stops at the first failing read. */
    method Consume(want: nat) returns (ok: bool, b: seq<byte>)
      requires readPos <= |data|
      modifies this`readPos
      ensures ok <==> old(readPos) + 4 * want <= |data|
      ensures old(readPos) <= readPos <= |data| && b == data[old(readPos)..readPos]
      ensures readPos <= old(readPos) + 4 * want
      ensures readPos == old(readPos) + 4 * want || readPos + 4 > |data|
    {
      ok, b := true, [];
      var i := 0;
      while i < want
        invariant 0 <= i <= want && readPos == old(readPos) + 4 * i <= |data| && ok
        invariant b == data[old(readPos)..readPos]
      {
        var word;
        ok, word := Read(4);
        if !ok {
          return;
        }
        b := b + word;
        i := i + 1;
      }
    }

    /** The header of a section of a well-formed pack opens it. */
    method Open(ghost begin: uint32, ghost ss: seq<Section>, ghost end: uint32, ghost i: nat)
      returns (ok: bool, cmd: seq<byte>)
      requires Pack(data, begin, ss, end) && i < |ss| && readPos == Start(ss, i)
      modifies this`readPos, this`curSecLen, this`curSecOffset
      ensures ok && cmd == LE32(ss[i].cmd) && readPos == Start(ss, i) + 12 <= |data|
      ensures curSecOffset + curSecLen == Start(ss, i + 1)
    {
      hide Pack, LE32, FromLE, SecLen, Total;
      SectionAtIndex(data, begin, ss, end, i);
      ok, cmd := BeginSection();
    }

    /** A handler on an opened section: it completes exactly when its reads stay inside the pack. */
    method Handle(want: nat, cmd: seq<byte>, ghost begin: uint32, ghost ss: seq<Section>, ghost end: uint32,
                  ghost i: nat)
      returns (ok: bool, item: (seq<byte>, seq<byte>))
      requires Pack(data, begin, ss, end) && i < |ss|
      requires cmd == LE32(ss[i].cmd) && readPos == Start(ss, i) + 12 <= |data|
      modifies this`readPos
      ensures (ok <==> ReadsInside(ss, i, want)) && Delivers(ss[i], want, item)
    {
      hide *;
      Stands(data, begin, ss, end, i, want);
      var payload;
      ok, payload := Consume(want);
      Delivered(data, Start(ss, i), ss[i], want, readPos, cmd, payload);
      item := (cmd, payload);
    }

    /** A requester's handler on an opened section with a known command: it may refuse what it has read. */
    method AnswerKnown(ghost known: set<seq<byte>>, handlers: nat -> Handling, cmd: seq<byte>,
                       ghost begin: uint32, ghost ss: seq<Section>, ghost end: uint32, i: nat)
      returns (ok: bool, item: (seq<byte>, seq<byte>))
      requires Pack(data, begin, ss, end) && i < |ss| && cmd in known
      requires cmd == LE32(ss[i].cmd) && readPos == Start(ss, i) + 12 <= |data|
      modifies this`readPos
      ensures (ok <==> Answerable(ss, i, known, handlers)) && Delivers(ss[i], handlers(i).want, item)
    {
      hide *;
      AnswerableIff(ss, i, known, handlers, cmd);
      ok, item := Handle(handlers(i).want, cmd, begin, ss, end, i);
      ok := ok && handlers(i).content;
    }

    /** The next section: its header, and its handler if the command is known. */
    method Answer(known: set<seq<byte>>, handlers: nat -> Handling,
                  ghost begin: uint32, ghost ss: seq<Section>, ghost end: uint32, i: nat)
      returns (ok: bool, item: (seq<byte>, seq<byte>))
      requires Pack(data, begin, ss, end) && i < |ss| && readPos == Start(ss, i)
      modifies this`readPos, this`curSecLen, this`curSecOffset
      ensures ok <==> Answerable(ss, i, known, handlers)
      ensures ok ==> Delivers(ss[i], handlers(i).want, item)
      ensures curSecOffset + curSecLen == Start(ss, i + 1)
    {
      hide *;
      item := ([], []);
      var cmd;
      ok, cmd := Open(begin, ss, end, i);
      if !ok || cmd !in known {
        Unknown(ss, i, known, handlers, cmd);
        return false, item;
      }
      ok, item := AnswerKnown(known, handlers, cmd, begin, ss, end, i);
    }

    /**
     The loop of the first requester from section `from` on: sections in order, up to the first one
     whose command is unknown or whose handler reads past the pack or is not content.
     */
    method ProcessUnpackCmd(known: set<seq<byte>>, handlers: nat -> Handling,
                            ghost begin: uint32, ghost ss: seq<Section>, ghost end: uint32, from: nat)
      returns (ok: bool, got: seq<(seq<byte>, seq<byte>)>)
      requires Pack(data, begin, ss, end) && from <= |ss| && curSecOffset + curSecLen == Start(ss, from)
      modifies this`readPos, this`curSecLen, this`curSecOffset
      ensures Replied(ss, from, known, handlers, got)
      ensures ok <==> from + |got| == |ss|
      ensures from + |got| < |ss| ==> !Answerable(ss, from + |got|, known, handlers)
      ensures ok ==> curSecOffset + curSecLen == readPos == |data| - 4
    {
      hide *;
      PackStarts(data, begin, ss, end);
      RepliedNone(ss, from, known, handlers);
      StartMore(ss, from);
      got, ok := [], true;
      var i := from;
      var more := NextSection();
      while more
        invariant i == from + |got| <= |ss| && more == (i < |ss|) && ok
        invariant readPos == curSecOffset + curSecLen == Start(ss, i) && Replied(ss, from, known, handlers, got)
        decreases |ss| - i
      {
        StartMore(ss, i + 1);
        var item;
        ok, item := Answer(known, handlers, begin, ss, end, i);
        if !ok {
          return;
        }
        RepliedNext(ss, from, known, handlers, got, item);
        got, i := got + [item], i + 1;
        more := NextSection();
      }
    }

    /** A well-formed reply to the first requester, from its opening to its closing command. */
    method DoReplyResults(opening: uint32, closing: uint32, known: set<seq<byte>>, handlers: nat -> Handling,
                          ghost begin: uint32, ghost ss: seq<Section>, ghost end: uint32)
      returns (ok: bool, got: seq<(seq<byte>, seq<byte>)>)
      requires Pack(data, begin, ss, end)
      modifies this`readPos, this`curSecLen, this`curSecOffset
      ensures ok <==> begin == opening && end == closing
                      && forall i :: 0 <= i < |ss| ==> Answerable(ss, i, known, handlers)
      ensures Replied(ss, 0, known, handlers, got) && (ok ==> |got| == |ss| && readPos == |data|)
      ensures begin != opening ==> got == []
      ensures begin == opening && |got| < |ss| ==> !Answerable(ss, |got|, known, handlers)
    {
      PackOpens(data, begin, ss, end);
      WordsDiffer(begin, opening);
      WordsDiffer(end, closing);
      hide Pack, LE32, Delivers, Total, Answerable;
      got := [];
      var cmd;
      ok, cmd := PackBegin();
      if !ok || cmd != LE32(opening) {
        return false, [];
      }
      ok, got := ProcessUnpackCmd(known, handlers, begin, ss, end, 0);
      if ok {
        ok, cmd := PackEnd();
        ok := ok && cmd == LE32(closing);
      }
    }

    /**
     The later requester's loop: its own commands are handled in it. The first other section is
     opened, and then the rest is left to the first requester's loop, which starts by jumping over
     that section.
     */
    method ProcessUnpackCmdV12(own: set<seq<byte>>, base: set<seq<byte>>, handlers: nat -> Handling,
                               ghost begin: uint32, ghost ss: seq<Section>, ghost end: uint32)
      returns (ok: bool, got: seq<(seq<byte>, seq<byte>)>, rest: seq<(seq<byte>, seq<byte>)>)
      requires Pack(data, begin, ss, end) && curSecOffset + curSecLen == 4
      modifies this`readPos, this`curSecLen, this`curSecOffset
      ensures Replies(ss, own, base, handlers, got, rest)
      ensures ok <==> |got| == Foreign(ss, own) && |rest| == Behind(ss, |got|)
      ensures ok ==> readPos == |data| - 4
    {
      hide *;
      PackStarts(data, begin, ss, end);
      RepliedNone(ss, 0, own, handlers);
      StartMore(ss, 0);
      got, rest, ok := [], [], true;
      var i := 0;
      var more := NextSection();
      while more
        invariant i == |got| <= |ss| && Replied(ss, 0, own, handlers, got) && ok && rest == []
        invariant more == (i < |ss|) && readPos == curSecOffset + curSecLen == Start(ss, i)
        decreases |ss| - i
      {
        StartMore(ss, i + 1);
        var cmd;
        ok, cmd := Open(begin, ss, end, i);
        if !ok {
          return;
        }
        KnownIff(ss[i], own, cmd);
        if cmd !in own {
          // When this loop comes back with success there is no section left for the outer one.
          ok, rest := ProcessUnpackCmd(base, handlers, begin, ss, end, i + 1);
          RestReplies(ss, own, base, handlers, got, rest);
          if ok {
            more := NextSection();
            assert !more;
          }
          return;
        }
        var item;
        ok, item := AnswerKnown(own, handlers, cmd, begin, ss, end, i);
        if !ok {
          OwnStops(ss, own, base, handlers, got);
          return;
        }
        RepliedNext(ss, 0, own, handlers, got, item);
        got, i := got + [item], i + 1;
        more := NextSection();
      }
      OwnDone(ss, own, base, handlers, got);
    }

    /** A well-formed reply to the later requester, from its opening to its closing command. */
    method DoReplyResultsV12(opening: uint32, closing: uint32, own: set<seq<byte>>, base: set<seq<byte>>,
                             handlers: nat -> Handling, ghost begin: uint32, ghost ss: seq<Section>, ghost end: uint32)
      returns (ok: bool, got: seq<(seq<byte>, seq<byte>)>, rest: seq<(seq<byte>, seq<byte>)>)
      requires Pack(data, begin, ss, end)
      modifies this`readPos, this`curSecLen, this`curSecOffset
      ensures ok <==> begin == opening && end == closing && ReplyOk(ss, own, base, handlers)
      ensures begin != opening ==> got == rest == []
      ensures begin == opening ==> Replies(ss, own, base, handlers, got, rest)
      ensures ok ==> |got + rest| == |Seen(ss, own)| && readPos == |data|
      ensures ok ==> (|got + rest| == |ss| <==> forall s :: s in ss ==> Known(s, own))
    {
      PackOpens(data, begin, ss, end);
      WordsDiffer(begin, opening);
      WordsDiffer(end, closing);
      SeenAll(ss, own);
      hide *;
      got, rest := [], [];
      var cmd;
      ok, cmd := PackBegin();
      if !ok || cmd != LE32(opening) {
        return false, [], [];
      }
      ok, got, rest := ProcessUnpackCmdV12(own, base, handlers, begin, ss, end);
      RepliesOk(ss, own, base, handlers, got, rest);
      if ok {
        ok, cmd := PackEnd();
        ok := ok && cmd == LE32(closing);
      }
    }

    /**
     The responder's loop: its handlers report nothing (but for the closing command's, which is not
     packed as a section), so every section is seen once and in order however little or much they
     read, up to the first unknown command.
     */
    method ServeSections(known: set<seq<byte>>, wants: nat -> nat,
                         ghost begin: uint32, ghost ss: seq<Section>, ghost end: uint32)
      returns (ok: bool, got: seq<(seq<byte>, seq<byte>)>)
      requires Pack(data, begin, ss, end) && curSecOffset + curSecLen == 4
      modifies this`readPos, this`curSecLen, this`curSecOffset
      ensures Served(ss, known, wants, got)
      ensures ok <==> |got| == |ss|
      ensures |got| < |ss| ==> !Known(ss[|got|], known)
    {
      hide *;
      PackStarts(data, begin, ss, end);
      ServedNone(ss, known, wants);
      got, ok := [], true;
      var more := NextSection();
      while more
        invariant |got| <= |ss| && more == (|got| < |ss|) && ok
        invariant readPos == Start(ss, |got|) && Served(ss, known, wants, got)
        decreases |ss| - |got|
      {
        StartMore(ss, |got| + 1);
        var cmd;
        ok, cmd := Open(begin, ss, end, |got|);
        if !ok {
          return;
        }
        KnownIff(ss[|got|], known, cmd);
        ok := cmd in known;
        if !ok {
          return;
        }
        var complete, item := Handle(wants(|got|), cmd, begin, ss, end, |got|);
        ServedNext(ss, known, wants, got, item);
        got := got + [item];
        more := NextSection();
      }
    }

    /** A well-formed request; its closing command is not looked at. */
    method ServeRequest(opening: uint32, known: set<seq<byte>>, wants: nat -> nat,
                        ghost begin: uint32, ghost ss: seq<Section>, ghost end: uint32)
      returns (ok: bool, got: seq<(seq<byte>, seq<byte>)>)
      requires Pack(data, begin, ss, end)
      modifies this`readPos, this`curSecLen, this`curSecOffset
      ensures ok <==> begin == opening && forall s :: s in ss ==> Known(s, known)
      ensures Served(ss, known, wants, got) && (ok ==> |got| == |ss|)
      ensures begin != opening ==> got == []
      ensures begin == opening && |got| < |ss| ==> !Known(ss[|got|], known)
    {
      PackOpens(data, begin, ss, end);
      WordsDiffer(begin, opening);
      hide Pack, LE32, Delivers, Total, Known;
      got := [];
      var cmd;
      ok, cmd := PackBegin();
      if !ok || cmd != LE32(opening) {
        return false, [];
      }
      ok, got := ServeSections(known, wants, begin, ss, end);
    }
  }

  /** Where section `i` starts, or the closing command. */
  ghost function Start(ss: seq<Section>, i: nat): nat
    requires i <= |ss|
  {
    4 + Total(ss[..i])
  }

  /** Section `i`'s handler asks for no more words than the pack has from there on. */
  ghost predicate ReadsInside(ss: seq<Section>, i: nat, want: nat)
    requires i < |ss|
  {
    Start(ss, i) + 12 + 4 * want <= Start(ss, |ss|) + 4
  }

  ghost predicate Known(s: Section, known: set<seq<byte>>) {
    LE32(s.cmd) in known
  }

  /** The first sections, all of them known, as they were delivered. */
  ghost predicate Served(ss: seq<Section>, known: set<seq<byte>>, wants: nat -> nat, got: seq<(seq<byte>, seq<byte>)>) {
    && |got| <= |ss|
    && forall i :: 0 <= i < |got| ==> Known(ss[i], known) && Delivers(ss[i], wants(i), got[i])
  }

  lemma ServedNone(ss: seq<Section>, known: set<seq<byte>>, wants: nat -> nat)
    ensures Served(ss, known, wants, [])
  {
  }

  lemma ServedNext(ss: seq<Section>, known: set<seq<byte>>, wants: nat -> nat,
                   got: seq<(seq<byte>, seq<byte>)>, item: (seq<byte>, seq<byte>))
    requires Served(ss, known, wants, got) && |got| < |ss|
    requires Known(ss[|got|], known) && Delivers(ss[|got|], wants(|got|), item)
    ensures Served(ss, known, wants, got + [item])
  {
    hide Delivers, Known;
  }

  /** Section `i` has a known command, and its handler stays inside the pack and is content. */
  ghost predicate Answerable(ss: seq<Section>, i: nat, known: set<seq<byte>>, handlers: nat -> Handling)
    requires i < |ss|
  {
    Known(ss[i], known) && ReadsInside(ss, i, handlers(i).want) && handlers(i).content
  }

  /** Sections from `from` on, in order, each answered as it asks for. */
  ghost predicate Replied(ss: seq<Section>, from: nat, known: set<seq<byte>>, handlers: nat -> Handling,
                          got: seq<(seq<byte>, seq<byte>)>)
  {
    && from + |got| <= |ss|
    && forall i :: from <= i < from + |got| ==>
         Answerable(ss, i, known, handlers) && Delivers(ss[i], handlers(i).want, got[i - from])
  }

  lemma RepliedNone(ss: seq<Section>, from: nat, known: set<seq<byte>>, handlers: nat -> Handling)
    requires from <= |ss|
    ensures Replied(ss, from, known, handlers, [])
  {
  }

  lemma RepliedNext(ss: seq<Section>, from: nat, known: set<seq<byte>>, handlers: nat -> Handling,
                    got: seq<(seq<byte>, seq<byte>)>, item: (seq<byte>, seq<byte>))
    requires Replied(ss, from, known, handlers, got) && from + |got| < |ss|
    requires Answerable(ss, from + |got|, known, handlers)
    requires Delivers(ss[from + |got|], handlers(from + |got|).want, item)
    ensures Replied(ss, from, known, handlers, got + [item])
  {
    hide Delivers, Answerable;
  }

  lemma Unknown(ss: seq<Section>, i: nat, known: set<seq<byte>>, handlers: nat -> Handling, cmd: seq<byte>)
    requires i < |ss| && cmd == LE32(ss[i].cmd) && cmd !in known
    ensures !Answerable(ss, i, known, handlers)
  {
  }

  lemma AnswerableIff(ss: seq<Section>, i: nat, known: set<seq<byte>>, handlers: nat -> Handling, cmd: seq<byte>)
    requires i < |ss| && cmd == LE32(ss[i].cmd) && cmd in known
    ensures Answerable(ss, i, known, handlers) <==> ReadsInside(ss, i, handlers(i).want) && handlers(i).content
  {
  }

  lemma KnownIff(s: Section, known: set<seq<byte>>, cmd: seq<byte>)
    requires cmd == LE32(s.cmd)
    ensures Known(s, known) <==> cmd in known
  {
  }

  lemma StartMore(ss: seq<Section>, i: nat)
    requires i <= |ss|
    ensures Start(ss, i) < Start(ss, |ss|) <==> i < |ss|
  {
    assert ss[..|ss|] == ss;
    if i < |ss| {
      TotalPrefix(ss, i);
    } else {
      assert ss[..i] == ss;
    }
  }

  // ----- replies to the later requester -----

  /** The first section that is not one of the loop's own, or the number of sections. */
  ghost function Foreign(ss: seq<Section>, own: set<seq<byte>>): (f: nat)
    ensures f <= |ss|
  {
    if ss == [] || !Known(ss[0], own) then 0 else 1 + Foreign(ss[1..], own)
  }

  lemma {:induction false} ForeignIs(ss: seq<Section>, own: set<seq<byte>>)
    ensures var f := Foreign(ss, own);
            && (forall i :: 0 <= i < f ==> Known(ss[i], own)) && (f < |ss| ==> !Known(ss[f], own))
  {
    hide Known;
    if ss == [] || !Known(ss[0], own) {
    } else {
      ForeignIs(ss[1..], own);
      var f := Foreign(ss, own);
      forall i | 0 <= i < f ensures Known(ss[i], own) {
        if i > 0 {
          assert ss[1..][i - 1] == ss[i];
        }
      }
    }
  }

  /** How many sections there are behind section `f`. */
  function Behind(ss: seq<Section>, f: nat): nat {
    if f < |ss| then |ss| - f - 1 else 0
  }

  /** The sections whose handlers are run: all but the first foreign one. */
  ghost function Seen(ss: seq<Section>, own: set<seq<byte>>): seq<Section> {
    var f := Foreign(ss, own);
    if f == |ss| then ss else ss[..f] + ss[f + 1..]
  }

  /**
   What the loop does, however it ends: own sections up to the first foreign one or the first
   failing handler, and then the sections behind the foreign one as the first requester's loop takes
   them, up to the first unknown one or the first failing handler.
   */
  ghost predicate Replies(ss: seq<Section>, own: set<seq<byte>>, base: set<seq<byte>>, handlers: nat -> Handling,
                          got: seq<(seq<byte>, seq<byte>)>, rest: seq<(seq<byte>, seq<byte>)>)
  {
    var f := Foreign(ss, own);
    && |got| <= f && Replied(ss, 0, own, handlers, got)
    && (|got| < f ==> rest == [] && !Answerable(ss, |got|, own, handlers))
    && (|got| == f < |ss| ==>
          && Replied(ss, f + 1, base, handlers, rest)
          && (f + 1 + |rest| < |ss| ==> !Answerable(ss, f + 1 + |rest|, base, handlers)))
    && (|got| == f == |ss| ==> rest == [])
  }

  /** Nothing fails: neither in the sections before the first foreign one nor in those behind it. */
  ghost predicate ReplyOk(ss: seq<Section>, own: set<seq<byte>>, base: set<seq<byte>>, handlers: nat -> Handling) {
    var f := Foreign(ss, own);
    && (forall i :: 0 <= i < f ==> Answerable(ss, i, own, handlers))
    && (forall i :: f < i < |ss| ==> Answerable(ss, i, base, handlers))
  }

  lemma RepliesOk(ss: seq<Section>, own: set<seq<byte>>, base: set<seq<byte>>, handlers: nat -> Handling,
                  got: seq<(seq<byte>, seq<byte>)>, rest: seq<(seq<byte>, seq<byte>)>)
    requires Replies(ss, own, base, handlers, got, rest)
    ensures ReplyOk(ss, own, base, handlers) <==> |got| == Foreign(ss, own) && |rest| == Behind(ss, |got|)
  {
    hide Answerable, Delivers, Foreign;
  }

  /** Own sections so far are no more than there are before the first foreign one. */
  lemma OwnSoFar(ss: seq<Section>, own: set<seq<byte>>, handlers: nat -> Handling, got: seq<(seq<byte>, seq<byte>)>)
    requires Replied(ss, 0, own, handlers, got)
    ensures |got| <= Foreign(ss, own)
    ensures |got| < |ss| ==> (Known(ss[|got|], own) <==> |got| < Foreign(ss, own))
  {
    ForeignIs(ss, own);
    hide Delivers, Known, Foreign;
    var f := Foreign(ss, own);
    forall i | 0 <= i < |got| ensures Known(ss[i], own) {
      assert Answerable(ss, i, own, handlers);
    }
  }

  lemma OwnStops(ss: seq<Section>, own: set<seq<byte>>, base: set<seq<byte>>, handlers: nat -> Handling,
                 got: seq<(seq<byte>, seq<byte>)>)
    requires Replied(ss, 0, own, handlers, got) && |got| < |ss| && Known(ss[|got|], own)
    requires !Answerable(ss, |got|, own, handlers)
    ensures Replies(ss, own, base, handlers, got, []) && |got| < Foreign(ss, own)
  {
    hide Replied, Known, Foreign, Answerable;
    OwnSoFar(ss, own, handlers, got);
  }

  lemma OwnDone(ss: seq<Section>, own: set<seq<byte>>, base: set<seq<byte>>, handlers: nat -> Handling,
                got: seq<(seq<byte>, seq<byte>)>)
    requires Replied(ss, 0, own, handlers, got) && |got| == |ss|
    ensures Replies(ss, own, base, handlers, got, []) && |ss| == Foreign(ss, own) && Behind(ss, |ss|) == 0
  {
    hide Replied, Known, Foreign, Answerable;
    OwnSoFar(ss, own, handlers, got);
  }

  lemma RestReplies(ss: seq<Section>, own: set<seq<byte>>, base: set<seq<byte>>, handlers: nat -> Handling,
                    got: seq<(seq<byte>, seq<byte>)>, rest: seq<(seq<byte>, seq<byte>)>)
    requires Replied(ss, 0, own, handlers, got) && |got| < |ss| && !Known(ss[|got|], own)
    requires Replied(ss, |got| + 1, base, handlers, rest)
    requires |got| + 1 + |rest| < |ss| ==> !Answerable(ss, |got| + 1 + |rest|, base, handlers)
    ensures Replies(ss, own, base, handlers, got, rest) && |got| == Foreign(ss, own)
    ensures Behind(ss, |got|) == |ss| - |got| - 1
  {
    hide Replied, Known, Foreign, Answerable;
    OwnSoFar(ss, own, handlers, got);
  }

  /** Every section's handler is run, once and in order, exactly if all the commands are the loop's own. */
  lemma SeenAll(ss: seq<Section>, own: set<seq<byte>>)
    ensures |Seen(ss, own)| == Foreign(ss, own) + Behind(ss, Foreign(ss, own))
    ensures Seen(ss, own) == ss <==> forall s :: s in ss ==> Known(s, own)
    ensures |Seen(ss, own)| == |ss| <==> forall s :: s in ss ==> Known(s, own)
  {
    ForeignIs(ss, own);
    hide Known, Foreign;
    var f := Foreign(ss, own);
    if f == |ss| {
      forall s | s in ss ensures Known(s, own) {
        var i :| 0 <= i < |ss| && ss[i] == s;
      }
    } else {
      assert ss[f] in ss;
    }
  }

  // ----- what that means for the replies there are -----

  const SET_ERROR: uint32 := 512
  const PREPARE_DISPLAY_LAYERS: uint32 := 513
  const COMMIT: uint32 := 514
  const COMMIT_AND_GET_RELEASE_FENCE: uint32 := 515

  ghost function OwnCommands(): set<seq<byte>> {
    {LE32(COMMIT_AND_GET_RELEASE_FENCE)}
  }

  ghost function BaseCommands(): set<seq<byte>> {
    {LE32(PREPARE_DISPLAY_LAYERS), LE32(COMMIT), LE32(SET_ERROR)}
  }

  lemma CommandsKnown(s: Section)
    ensures Known(s, OwnCommands()) <==> s.cmd == COMMIT_AND_GET_RELEASE_FENCE
    ensures Known(s, BaseCommands()) <==> s.cmd == PREPARE_DISPLAY_LAYERS || s.cmd == COMMIT || s.cmd == SET_ERROR
  {
    WordsDiffer(s.cmd, COMMIT_AND_GET_RELEASE_FENCE);
    WordsDiffer(s.cmd, PREPARE_DISPLAY_LAYERS);
    WordsDiffer(s.cmd, COMMIT);
    WordsDiffer(s.cmd, SET_ERROR);
    hide LE32;
  }

  /** A lone section of the first requester's is skipped, and the reply is taken whatever it holds. */
  lemma LoneSectionSkipped(s: Section, handlers: nat -> Handling)
    requires s.cmd == PREPARE_DISPLAY_LAYERS
    ensures ReplyOk([s], OwnCommands(), BaseCommands(), handlers) && Seen([s], OwnCommands()) == []
  {
    hide OwnCommands, BaseCommands, Known, Answerable;
    CommandsKnown(s);
    var ss := [s];
    assert Foreign(ss, OwnCommands()) == 0;
    assert ss[..0] + ss[1..] == [];
  }

  /** The later requester's own section is refused behind one of the first requester's, whatever its handler says. */
  lemma OwnSectionRefused(s: Section, t: Section, handlers: nat -> Handling)
    requires s.cmd == PREPARE_DISPLAY_LAYERS && t.cmd == COMMIT_AND_GET_RELEASE_FENCE
    requires ReadsInside([s, t], 0, handlers(0).want) && ReadsInside([s, t], 1, handlers(1).want)
    ensures !ReplyOk([s, t], OwnCommands(), BaseCommands(), handlers)
  {
    hide OwnCommands, BaseCommands, Known, ReadsInside;
    CommandsKnown(s);
    CommandsKnown(t);
    var ss := [s, t];
    assert Foreign(ss, OwnCommands()) == 0 && !Answerable(ss, 1, BaseCommands(), handlers);
  }

  /** Errors reported behind a commit are never looked at. */
  lemma ErrorsSkipped(s: Section, t: Section, handlers: nat -> Handling)
    requires s.cmd == COMMIT_AND_GET_RELEASE_FENCE && t.cmd == SET_ERROR
    ensures ReplyOk([s, t], OwnCommands(), BaseCommands(), handlers) <==>
              ReadsInside([s, t], 0, handlers(0).want) && handlers(0).content
    ensures Seen([s, t], OwnCommands()) == [s]
  {
    hide OwnCommands, BaseCommands, Known, ReadsInside;
    CommandsKnown(s);
    CommandsKnown(t);
    var ss := [s, t];
    var rest := ss[1..];
    assert rest[0] == t && Foreign(rest, OwnCommands()) == 0;
    assert Foreign(ss, OwnCommands()) == 1;
    assert ss[..1] + ss[2..] == [s];
    assert Answerable(ss, 0, OwnCommands(), handlers) <==> ReadsInside(ss, 0, handlers(0).want) && handlers(0).content;
  }

  lemma PackStarts(m: seq<byte>, begin: uint32, ss: seq<Section>, end: uint32)
    requires Pack(m, begin, ss, end)
    ensures Start(ss, 0) == 4 && Start(ss, |ss|) + 4 == |m|
    ensures Start(ss, 0) < Start(ss, |ss|) <==> ss != []
  {
    PackOpens(m, begin, ss, end);
  }

  /** The payload of section `i`, and what it takes to stay inside the pack when reading it. */
  lemma Stands(m: seq<byte>, begin: uint32, ss: seq<Section>, end: uint32, i: nat, want: nat)
    requires Pack(m, begin, ss, end) && i < |ss|
    ensures var at, len := Start(ss, i) + 12, |ss[i].payload|;
            && at + len <= |m| - 4 && m[at..at + len] == ss[i].payload
            && (ReadsInside(ss, i, want) <==> at + 4 * want <= |m|)
  {
    hide Pack, LE32, FromLE, SecLen, Total;
    PackStarts(m, begin, ss, end);
    SectionAtIndex(m, begin, ss, end, i);
  }

  lemma WordsDiffer(a: uint32, b: uint32)
    ensures LE32(a) == LE32(b) <==> a == b
  {
    LE32RoundTrip(a);
    LE32RoundTrip(b);
  }

  /** The command arrives, and as much of the payload as was asked for. */
  predicate Delivers(s: Section, want: nat, got: (seq<byte>, seq<byte>)) {
    && got.0 == LE32(s.cmd)
    && (4 * want <= |s.payload| ==> got.1 == s.payload[..4 * want])
    && (4 * want > |s.payload| ==> s.payload <= got.1)
  }

  lemma {:induction false} TotalPrefix(ss: seq<Section>, i: nat)
    requires i < |ss|
    ensures Total(ss[..i + 1]) == Total(ss[..i]) + SecLen(ss[i]) <= Total(ss)
    decreases |ss|
  {
    if i == 0 {
      assert ss[..1][1..] == [];
    } else {
      TotalPrefix(ss[1..], i - 1);
      assert ss[..i + 1][1..] == ss[1..][..i] && ss[..i][1..] == ss[1..][..i - 1];
    }
  }

  lemma {:induction false} PackedIndex(m: seq<byte>, pos: nat, ss: seq<Section>, i: nat)
    requires PackedAt(m, pos, ss) && i < |ss|
    ensures At(m, pos + Total(ss[..i]), SectionBytes(ss[i]))
    decreases |ss|
  {
    hide At, SectionBytes;
    if i == 0 {
    } else {
      PackedIndex(m, pos + SecLen(ss[0]), ss[1..], i - 1);
      assert ss[..i][1..] == ss[1..][..i - 1];
    }
  }

  lemma PackOpens(m: seq<byte>, begin: uint32, ss: seq<Section>, end: uint32)
    requires Pack(m, begin, ss, end)
    ensures |m| == 8 + Total(ss) && m[..4] == LE32(begin) && m[|m| - 4..] == LE32(end)
    ensures Total(ss[..0]) == 0 && (ss == [] || Total(ss) > 0) && ss[..|ss|] == ss
  {
  }

  /** Only the last section's end is where the closing command stands. */
  lemma TotalGrows(ss: seq<Section>, i: nat)
    requires i < |ss|
    ensures i + 1 < |ss| ==> Total(ss[..i + 1]) < Total(ss)
    ensures i + 1 == |ss| ==> Total(ss[..i + 1]) == Total(ss)
  {
    hide Total;
    if i + 1 < |ss| {
      TotalPrefix(ss, i + 1);
    } else {
      assert ss[..i + 1] == ss;
    }
  }

  /** Section `i` stands where the ones before it end, and says so in its header. */
  lemma SectionAtIndex(m: seq<byte>, begin: uint32, ss: seq<Section>, end: uint32, i: nat)
    requires Pack(m, begin, ss, end) && i < |ss|
    ensures var at, s := 4 + Total(ss[..i]), ss[i];
            && at + 12 + |s.payload| <= |m| - 4 && 4 + Total(ss[..i + 1]) == at + SecLen(s)
            && m[at..at + 4] == LE32(SECTION_MAGIC) && m[at + 4..at + 8] == LE32(s.cmd)
            && FromLE(m[at + 8..at + 12]) == SecLen(s)
            && m[at + 12..at + 12 + |s.payload|] == s.payload
  {
    hide At, PackedAt, Total, SectionBytes, FromLE, LE32;
    TotalPrefix(ss, i);
    PackedIndex(m, 4, ss, i);
    ReadsBack(m, 4 + Total(ss[..i]), ss[i]);
  }

  /** The words of a packed section. */
  lemma ReadsBack(m: seq<byte>, at: nat, s: Section)
    requires At(m, at, SectionBytes(s)) && SecLen(s) < WORDS
    ensures at + 12 + |s.payload| <= |m|
    ensures m[at..at + 4] == LE32(SECTION_MAGIC) && m[at + 4..at + 8] == LE32(s.cmd)
    ensures FromLE(m[at + 8..at + 12]) == SecLen(s)
    ensures m[at + 12..at + 12 + |s.payload|] == s.payload
  {
    hide LE32, ToLE, FromLE, SecLen;
    var len := ToLE(SecLen(s), 4);
    AtSplit(m, at, LE32(SECTION_MAGIC), LE32(s.cmd) + (len + s.payload));
    AtSplit(m, at + 4, LE32(s.cmd), len + s.payload);
    AtSplit(m, at + 8, len, s.payload);
    Pow256Values();
    FromToLE(SecLen(s), 4);
  }

  lemma Delivered(m: seq<byte>, at: nat, s: Section, want: nat, now: nat, cmd: seq<byte>, payload: seq<byte>)
    requires at + 12 + |s.payload| <= |m| && m[at + 12..at + 12 + |s.payload|] == s.payload && cmd == LE32(s.cmd)
    requires at + 12 <= now <= |m| && payload == m[at + 12..now]
    requires now == at + 12 + 4 * want || (at + 12 + |s.payload| <= now <= at + 12 + 4 * want)
    ensures Delivers(s, want, (cmd, payload))
  {
    hide LE32;
    if 4 * want <= |s.payload| {
      SliceSlice(m, at + 12, at + 12 + |s.payload|, 0, 4 * want);
    } else {
      SliceSlice(m, at + 12, now, 0, |s.payload|);
    }
  }

  // ----- sessions -----

  /** A section a client asks for, with the values it writes one by one. */
  datatype Job = Job(cmd: uint32, reserved: uint32, values: seq<seq<byte>>) {
    function AsSection(): Section {
      Section(cmd, reserved, Joined(values))
    }
  }

  ghost predicate JobOk(j: Job) {
    forall v :: v in j.values ==> |v| == 4 || |v| == 8
  }

  /** The sections of the jobs that went through. */
  function Chosen(jobs: seq<Job>, went: seq<bool>): seq<Section>
    requires |jobs| == |went|
  {
    if jobs == [] then []
    else (if went[0] then [jobs[0].AsSection()] else []) + Chosen(jobs[1..], went[1..])
  }

  lemma {:induction false} ChosenNext(jobs: seq<Job>, went: seq<bool>, j: Job, w: bool)
    requires |jobs| == |went|
    ensures Chosen(jobs + [j], went + [w]) == Chosen(jobs, went) + if w then [j.AsSection()] else []
  {
    if jobs == [] {
      assert ([j] + [])[1..] == [] && jobs + [j] == [j] && went + [w] == [w];
      assert Chosen([j][1..], [w][1..]) == [];
    } else {
      assert (jobs + [j])[1..] == jobs[1..] + [j] && (went + [w])[1..] == went[1..] + [w];
      ChosenNext(jobs[1..], went[1..], j, w);
    }
  }

  /** Job `i` went through exactly if the buffer, as large as it was by then, admitted it behind the earlier ones. */
  ghost predicate DecidedAt(jobs: seq<Job>, went: seq<bool>, sizes: seq<nat>, i: nat, adaptive: bool)
    requires i < |jobs| == |went| == |sizes| - 1
  {
    var tail := TailOf(Chosen(jobs[..i], went[..i]));
    && (went[i] <==> Admits(tail, jobs[i].AsSection(), sizes[i], adaptive))
    && sizes[i + 1] == SizeAfter(tail, jobs[i].reserved, jobs[i].values, sizes[i], adaptive)
  }

  /** Which jobs went through, and how large the buffer was before each of them and at last. */
  ghost predicate Decided(jobs: seq<Job>, went: seq<bool>, sizes: seq<nat>, room: nat, adaptive: bool) {
    && |jobs| == |went| == |sizes| - 1 && sizes[0] == room
    && forall i :: 0 <= i < |jobs| ==> DecidedAt(jobs, went, sizes, i, adaptive)
  }

  lemma NothingDecided(room: nat, adaptive: bool)
    ensures Decided([], [], [room], room, adaptive) && Chosen([], []) == []
  {
  }

  lemma DecidedNext(jobs: seq<Job>, went: seq<bool>, sizes: seq<nat>, room: nat, adaptive: bool, j: Job, w: bool,
                    now: nat)
    requires Decided(jobs, went, sizes, room, adaptive)
    requires var tail, size := TailOf(Chosen(jobs, went)), sizes[|jobs|];
             && (w <==> Admits(tail, j.AsSection(), size, adaptive))
             && now == SizeAfter(tail, j.reserved, j.values, size, adaptive)
    ensures Decided(jobs + [j], went + [w], sizes + [now], room, adaptive)
  {
    hide Admits, TailOf, Chosen, SizeAfter;
    var jobs', went', sizes' := jobs + [j], went + [w], sizes + [now];
    forall i | 0 <= i < |jobs'| ensures DecidedAt(jobs', went', sizes', i, adaptive) {
      assert jobs'[..i] == jobs[..i] && went'[..i] == went[..i];
      if i == |jobs| {
        assert jobs[..i] == jobs && went[..i] == went;
      } else {
        assert DecidedAt(jobs, went, sizes, i, adaptive);
      }
    }
  }

  lemma DecidedBut(jobs: seq<Job>, went: seq<bool>, sizes: seq<nat>, room: nat, adaptive: bool)
    requires Decided(jobs, went, sizes, room, adaptive) && jobs != []
    ensures var n := |jobs| - 1; Decided(jobs[..n], went[..n], sizes[..n + 1], room, adaptive)
  {
    hide Admits, TailOf, Chosen, SizeAfter;
    var n := |jobs| - 1;
    var jobs', went', sizes' := jobs[..n], went[..n], sizes[..n + 1];
    forall i | 0 <= i < n ensures DecidedAt(jobs', went', sizes', i, adaptive) {
      assert jobs'[..i] == jobs[..i] && went'[..i] == went[..i];
      assert DecidedAt(jobs, went, sizes, i, adaptive);
    }
  }

  /** A session can go one way only. */
  lemma {:induction false} DecidedOnce(jobs: seq<Job>, room: nat, adaptive: bool, went: seq<bool>, sizes: seq<nat>,
                                       went': seq<bool>, sizes': seq<nat>)
    requires Decided(jobs, went, sizes, room, adaptive) && Decided(jobs, went', sizes', room, adaptive)
    ensures went == went' && sizes == sizes'
    decreases |jobs|
  {
    hide Admits, TailOf, Chosen, SizeAfter;
    if jobs == [] {
      assert sizes == [room] == sizes';
    } else {
      var n := |jobs| - 1;
      DecidedBut(jobs, went, sizes, room, adaptive);
      DecidedBut(jobs, went', sizes', room, adaptive);
      DecidedOnce(jobs[..n], room, adaptive, went[..n], sizes[..n + 1], went'[..n], sizes'[..n + 1]);
      assert DecidedAt(jobs, went, sizes, n, adaptive) && DecidedAt(jobs, went', sizes', n, adaptive);
      assert sizes[n] == sizes[..n + 1][n] && sizes'[n] == sizes'[..n + 1][n];
      assert went == went[..n] + [went[n]] && went' == went'[..n] + [went'[n]];
      assert sizes == sizes[..n + 1] + [sizes[n + 1]] && sizes' == sizes'[..n + 1] + [sizes'[n + 1]];
    }
  }

  /** The buffer never shrinks, and without growth keeps its size. */
  lemma {:induction false} DecidedSizes(jobs: seq<Job>, went: seq<bool>, sizes: seq<nat>, room: nat, adaptive: bool)
    requires Decided(jobs, went, sizes, room, adaptive)
    ensures sizes[|jobs|] >= room && (!adaptive ==> sizes[|jobs|] == room)
    decreases |jobs|
  {
    hide Admits, TailOf, Chosen, SizeAfter;
    if jobs == [] {
    } else {
      var n := |jobs| - 1;
      DecidedBut(jobs, went, sizes, room, adaptive);
      DecidedSizes(jobs[..n], went[..n], sizes[..n + 1], room, adaptive);
      assert DecidedAt(jobs, went, sizes, n, adaptive);
      SizeAfterGrows(TailOf(Chosen(jobs[..n], went[..n])), jobs[n].reserved, jobs[n].values, sizes[n], adaptive);
    }
  }

  /** Pack the jobs one after the other, rolling back those that fail. */
  method PackJobs(packer: CommandDataPacker, jobs: seq<Job>) returns (went: seq<bool>, ghost sizes: seq<nat>)
    requires packer.Clean() && packer.sections == []
    requires forall j :: j in jobs ==> JobOk(j)
    modifies packer, packer.data
    ensures fresh({packer.data} - {old(packer.data)})
    ensures packer.begin == old(packer.begin) && packer.isAdaptiveGrowth == old(packer.isAdaptiveGrowth)
    ensures Decided(jobs, went, sizes, old(packer.packSize), packer.isAdaptiveGrowth)
    ensures packer.Clean() && packer.sections == Chosen(jobs, went) && packer.packSize == sizes[|jobs|]
  {
    hide *;
    ghost var room, adaptive, begin := packer.packSize, packer.isAdaptiveGrowth, packer.begin;
    went, sizes := [], [room];
    NothingDecided(room, adaptive);
    var i := 0;
    assert jobs[..0] == [];
    while i < |jobs|
      invariant 0 <= i <= |jobs| && |went| == i && |sizes| == i + 1
      invariant fresh({packer.data} - {old(packer.data)})
      invariant packer.Clean() && packer.begin == begin && packer.isAdaptiveGrowth == adaptive
      invariant packer.sections == Chosen(jobs[..i], went)
      invariant Decided(jobs[..i], went, sizes, room, adaptive) && packer.packSize == sizes[i]
    {
      ChosenNext(jobs[..i], went, jobs[i], false);
      ChosenNext(jobs[..i], went, jobs[i], true);
      assert jobs[..i + 1] == jobs[..i] + [jobs[i]];
      AsSectionOk(jobs[i]);
      var w := packer.PackSection(jobs[i].AsSection(), jobs[i].values);
      DecidedNext(jobs[..i], went, sizes, room, adaptive, jobs[i], w, packer.packSize);
      went, sizes := went + [w], sizes + [packer.packSize];
      i := i + 1;
    }
    assert jobs[..i] == jobs;
  }

  lemma AsSectionOk(j: Job)
    requires JobOk(j)
    ensures j.AsSection().payload == Joined(j.values) && j.AsSection().reserved == j.reserved
    ensures forall v :: v in j.values ==> |v| == 4 || |v| == 8
  {
  }

  /** A whole pack: opening command, jobs, closing command. */
  method PackSession(size: nat, adaptive: bool, begin: uint32, jobs: seq<Job>, end: uint32)
    returns (ok: bool, went: seq<bool>, m: seq<byte>, ghost sizes: seq<nat>)
    requires forall j :: j in jobs ==> JobOk(j)
    ensures |went| == |jobs|
    ensures var room := Grown(PageUp(size) % WORDS, 4, adaptive);
            && (room == 0 ==> !ok)
            && (room != 0 ==>
                  && Decided(jobs, went, sizes, room, adaptive)
                  && (ok <==> Closes(TailOf(Chosen(jobs, went)), sizes[|jobs|], adaptive)))
    ensures ok ==> Pack(m, begin, Chosen(jobs, went), end)
  {
    hide LE32, Holds, Joined, Pack, PageUp, Closes, TailOf, Chosen, DecidedAt;
    var packer := new CommandDataPacker();
    packer.Init(size, adaptive);
    ok := packer.PackBegin(begin);
    went, sizes, m := seq(|jobs|, _ => false), [], [];
    if !ok {
      return;
    }
    went, sizes := PackJobs(packer, jobs);
    ok := packer.PackEnd(end);
    if ok {
      m := packer.data[..packer.writePos];
    }
  }

  /**
   A whole request session: sections that fail are rolled back and skipped, and the responder gets
   exactly the others, up to the first command it does not know.
   */
  method Session(size: nat, adaptive: bool, begin: uint32, jobs: seq<Job>, end: uint32,
                 known: set<seq<byte>>, wants: nat -> nat)
    returns (ok: bool, went: seq<bool>, got: seq<(seq<byte>, seq<byte>)>, ghost sizes: seq<nat>)
    requires forall j :: j in jobs ==> JobOk(j)
    ensures |went| == |jobs|
    ensures var room, ss := Grown(PageUp(size) % WORDS, 4, adaptive), Chosen(jobs, went);
            && (room == 0 ==> !ok)
            && (room != 0 ==>
                  && Decided(jobs, went, sizes, room, adaptive)
                  && (ok <==> Closes(TailOf(ss), sizes[|jobs|], adaptive) && forall s :: s in ss ==> Known(s, known)))
    ensures ok ==> |got| == |Chosen(jobs, went)|
    ensures ok ==> forall i :: 0 <= i < |got| ==> Delivers(Chosen(jobs, went)[i], wants(i), got[i])
  {
    hide LE32, Pack, Delivers, Decided, Closes, TailOf, Chosen, PageUp;
    var m;
    got := [];
    ok, went, m, sizes := PackSession(size, adaptive, begin, jobs, end);
    if ok {
      var unpacker := new CommandDataUnpacker(m);
      ok, got := unpacker.ServeRequest(begin, known, wants, begin, Chosen(jobs, went), end);
    }
  }
}
