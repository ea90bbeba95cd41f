/** The loops over sections on bytes nobody vouches for: where they go, and when they come to an end. */
module CommandBytes {
  import opened Bytes
  import opened CommandPack
  import opened CommandUnpack

  /**
   A loop: the commands it knows, what the handler called in each round does, and whether a read that
   fails ends it, as it does in the first requester's loop but not in the responder's.
   */
  datatype Loop = Loop(known: set<seq<byte>>, handlers: nat -> Handling, strict: bool)

  /** After a round of the loop: past the last section, refused, or at the next section. */
  datatype Round = Ended | Refused | Goes(next: nat)

  /** The word at `p` opens a section with a known command. */
  predicate Header(m: seq<byte>, p: nat, known: set<seq<byte>>) {
    p + 12 <= |m| && m[p..p + 4] == LE32(SECTION_MAGIC) && m[p + 4..p + 8] in known
  }

  /** The handler does not end the loop when it is called on the section at `p`. */
  predicate Fine(m: seq<byte>, p: nat, handler: Handling, strict: bool) {
    handler.content && (strict ==> p + 12 + 4 * handler.want <= |m|)
  }

  /** One round at position `p`. */
  function RoundAt(m: seq<byte>, p: nat, known: set<seq<byte>>, handler: Handling, strict: bool): Round {
    if p + 4 >= |m| then Ended
    else if !Header(m, p, known) || !Fine(m, p, handler, strict) then Refused
    else Goes(p + WordAt(m, p + 8))
  }

  /** The first `n` rounds. */
  function Course(m: seq<byte>, loop: Loop, n: nat): Round {
    if n == 0 then Goes(4)
    else match Course(m, loop, n - 1)
      case Goes(p) => RoundAt(m, p, loop.known, loop.handlers(n - 1), loop.strict)
      case stop => stop
  }

  ghost predicate Ends(m: seq<byte>, loop: Loop) {
    exists n: nat :: !Course(m, loop, n).Goes?
  }

  /** Round `n` is at a section with a known command whose recorded length is 0. */
  ghost predicate Still(m: seq<byte>, loop: Loop, n: nat) {
    var c := Course(m, loop, n);
    c.Goes? && c.next + 4 < |m| && Header(m, c.next, loop.known) && WordAt(m, c.next + 8) == 0
  }

  /** It is, and no handler ends the loop there, now or later. */
  ghost predicate Stalls(m: seq<byte>, loop: Loop, n: nat) {
    && Still(m, loop, n)
    && forall k: nat :: k >= n ==> Fine(m, Course(m, loop, n).next, loop.handlers(k), loop.strict)
  }

  // ----- the loops -----

  ghost predicate Opens(m: seq<byte>, opening: uint32) {
    |m| >= 4 && m[..4] == LE32(opening)
  }

  /** The bytes a handler gets that asks for `want` words from `at` on and stops at the first missing one. */
  predicate Taken(m: seq<byte>, at: nat, want: nat, b: seq<byte>) {
    && at + |b| <= |m| && b == m[at..at + |b|] && |b| <= 4 * want
    && (|b| == 4 * want || at + |b| + 4 > |m|)
  }

  /** The section of round `i`, as its handler got it. */
  ghost predicate VisitedAt(m: seq<byte>, loop: Loop, i: nat, item: (seq<byte>, seq<byte>)) {
    var c := Course(m, loop, i);
    && c.Goes? && Header(m, c.next, loop.known)
    && item.0 == m[c.next + 4..c.next + 8] && Taken(m, c.next + 12, loop.handlers(i).want, item.1)
  }

  /** The sections of the first rounds, in the order in which the loop came to them. */
  ghost predicate Visited(m: seq<byte>, loop: Loop, got: seq<(seq<byte>, seq<byte>)>) {
    && Course(m, loop, |got|).Goes?
    && forall i :: 0 <= i < |got| ==> VisitedAt(m, loop, i, got[i])
  }

  /** The loop over any bytes behind the opening command; it is called where it comes to an end. */
  method RunLoop(u: CommandDataUnpacker, loop: Loop) returns (ok: bool, got: seq<(seq<byte>, seq<byte>)>)
    requires |u.data| >= 4 && u.curSecOffset + u.curSecLen == 4 && Ends(u.data, loop)
    modifies u`readPos, u`curSecLen, u`curSecOffset
    ensures Visited(u.data, loop, got)
    ensures Course(u.data, loop, |got| + 1) == if ok then Ended else Refused
    ensures ok ==> Course(u.data, loop, |got|) == Goes(u.readPos)
  {
    hide LE32, WordAt, Visited, Ends, Fine;
    ghost var m := u.data;
    got, ok := [], true;
    NoneVisited(m, loop);
    ghost var last := LastRound(m, loop);
    var more := u.NextSection();
    while more
      invariant Course(m, loop, |got|) == Goes(u.readPos) && more == (u.readPos + 4 < |m|)
      invariant Visited(m, loop, got) && |got| <= last && ok
      decreases last - |got|
    {
      var item;
      ok, item := RunRound(u, loop.known, loop.handlers(|got|), loop.strict);
      if !ok {
        return;
      }
      VisitedNext(m, loop, got, item);
      got := got + [item];
      Sooner(m, loop, |got|, last);
      more := u.NextSection();
    }
  }

  /** One round behind the test whether there is a section. */
  method RunRound(u: CommandDataUnpacker, known: set<seq<byte>>, handler: Handling, strict: bool)
    returns (ok: bool, item: (seq<byte>, seq<byte>))
    requires u.readPos + 4 < |u.data|
    modifies u`readPos, u`curSecLen, u`curSecOffset
    ensures RoundAt(u.data, old(u.readPos), known, handler, strict) ==
            if ok then Goes(u.curSecOffset + u.curSecLen) else Refused
    ensures ok ==>
              && Header(u.data, old(u.readPos), known)
              && item.0 == u.data[old(u.readPos) + 4..old(u.readPos) + 8]
              && Taken(u.data, old(u.readPos) + 12, handler.want, item.1)
  {
    hide LE32, FromLE;
    item := ([], []);
    var cmd;
    ok, cmd := u.BeginSection();
    if !ok || cmd !in known {
      return false, item;
    }
    var complete, payload := u.Consume(handler.want);
    item := (cmd, payload);
    ok := handler.content && (complete || !strict);
  }

  /** A request of any bytes. */
  method ServeBytes(u: CommandDataUnpacker, opening: uint32, loop: Loop)
    returns (ok: bool, got: seq<(seq<byte>, seq<byte>)>)
    requires !loop.strict && (Opens(u.data, opening) ==> Ends(u.data, loop))
    modifies u`readPos, u`curSecLen, u`curSecOffset
    ensures !Opens(u.data, opening) ==> !ok && got == []
    ensures Opens(u.data, opening) ==>
              Visited(u.data, loop, got) && Course(u.data, loop, |got| + 1) == if ok then Ended else Refused
  {
    hide LE32, Visited, Ends, Course;
    got := [];
    var cmd;
    ok, cmd := u.PackBegin();
    if !ok || cmd != LE32(opening) {
      return false, got;
    }
    ok, got := RunLoop(u, loop);
  }

  /** A reply of any bytes to the first requester: the loop must end just before the closing command. */
  method ReplyBytes(u: CommandDataUnpacker, opening: uint32, closing: uint32, loop: Loop)
    returns (ok: bool, got: seq<(seq<byte>, seq<byte>)>)
    requires loop.strict && (Opens(u.data, opening) ==> Ends(u.data, loop))
    modifies u`readPos, u`curSecLen, u`curSecOffset
    ensures !Opens(u.data, opening) ==> !ok && got == []
    ensures Opens(u.data, opening) ==>
              && Visited(u.data, loop, got) && !Course(u.data, loop, |got| + 1).Goes?
              && (ok <==> Closes(u.data, closing) && Course(u.data, loop, |got|) == Goes(|u.data| - 4))
  {
    hide LE32, Visited, Ends;
    got := [];
    var cmd;
    ok, cmd := u.PackBegin();
    if !ok || cmd != LE32(opening) {
      return false, got;
    }
    ok, got := RunLoop(u, loop);
    if ok {
      ok, cmd := u.PackEnd();
      ok := ok && cmd == LE32(closing);
    }
  }

  ghost predicate Closes(m: seq<byte>, closing: uint32) {
    |m| >= 4 && m[|m| - 4..] == LE32(closing)
  }

  lemma NoneVisited(m: seq<byte>, loop: Loop)
    ensures Visited(m, loop, []) && Course(m, loop, 0) == Goes(4)
  {
  }

  lemma VisitedNext(m: seq<byte>, loop: Loop, got: seq<(seq<byte>, seq<byte>)>, item: (seq<byte>, seq<byte>))
    requires Visited(m, loop, got) && VisitedAt(m, loop, |got|, item) && Course(m, loop, |got| + 1).Goes?
    ensures Visited(m, loop, got + [item])
  {
    hide VisitedAt, Course;
  }

  ghost function LastRound(m: seq<byte>, loop: Loop): (n: nat)
    requires Ends(m, loop)
    ensures !Course(m, loop, n).Goes?
  {
    var n: nat :| !Course(m, loop, n).Goes?;
    n
  }

  /** A loop that is still going has been going before. */
  lemma {:induction false} Sooner(m: seq<byte>, loop: Loop, k: nat, n: nat)
    ensures Course(m, loop, n).Goes? && k <= n ==> Course(m, loop, k).Goes?
    ensures Course(m, loop, k).Goes? && !Course(m, loop, n).Goes? ==> k < n
    decreases k + n
  {
    hide RoundAt;
    if k < n {
      Sooner(m, loop, k, n - 1);
    } else if n < k {
      Sooner(m, loop, n, k - 1);
    }
  }

  // ----- when they end -----

  /** From a section of length 0 whose handlers never object there is no way on. */
  lemma {:induction false} StallGoesOn(m: seq<byte>, loop: Loop, n: nat, k: nat)
    requires Stalls(m, loop, n) && k >= n
    ensures Course(m, loop, k) == Course(m, loop, n)
    decreases k
  {
    hide Header, WordAt, Fine;
    if k == n {
    } else {
      StallGoesOn(m, loop, n, k - 1);
      assert Fine(m, Course(m, loop, n).next, loop.handlers(k - 1), loop.strict);
    }
  }

  lemma StallsGoes(m: seq<byte>, loop: Loop, n: nat, k: nat)
    requires Stalls(m, loop, n)
    ensures Course(m, loop, k).Goes?
  {
    hide Fine, Course;
    if k <= n {
      Sooner(m, loop, k, n);
    } else {
      StallGoesOn(m, loop, n, k);
    }
  }

  /** Every round gets on unless it is at a section of length 0. */
  lemma {:induction false} Climbs(m: seq<byte>, loop: Loop, n: nat)
    requires Course(m, loop, n).Goes? && forall k: nat :: k < n ==> !Still(m, loop, k)
    ensures Course(m, loop, n).next >= 4 + n
  {
    hide Header, WordAt, Fine;
    if n == 0 {
    } else {
      Climbs(m, loop, n - 1);
      assert !Still(m, loop, n - 1);
    }
  }

  /** A loop that gets to a section of length 0 and never ends stays there, so no handler ends it there. */
  lemma {:induction false} StaysAt(m: seq<byte>, loop: Loop, n: nat, k: nat)
    requires Still(m, loop, n) && !Ends(m, loop) && k >= n
    ensures Course(m, loop, k) == Course(m, loop, n)
    ensures Fine(m, Course(m, loop, n).next, loop.handlers(k), loop.strict)
    decreases k
  {
    hide Header, WordAt, Fine;
    assert Course(m, loop, k + 1).Goes?;
    if k == n {
    } else {
      StaysAt(m, loop, n, k - 1);
    }
  }

  /**
   A loop comes to an end exactly if it never gets to a section with a known command whose recorded
   length is 0 and whose handlers, called again and again, let it go on.
   */
  lemma EndsIff(m: seq<byte>, loop: Loop)
    ensures Ends(m, loop) <==> !exists n: nat :: Stalls(m, loop, n)
  {
    hide Still, Course, Fine;
    if n: nat :| Stalls(m, loop, n) {
      forall k: nat ensures Course(m, loop, k).Goes? {
        StallsGoes(m, loop, n, k);
      }
    } else if !Ends(m, loop) {
      forall n: nat ensures !Still(m, loop, n) {
        NotStill(m, loop, n);
      }
      Climbs(m, loop, |m|);
      PastTheEnd(m, loop, |m|);
    }
  }

  lemma NotStill(m: seq<byte>, loop: Loop, n: nat)
    requires !Ends(m, loop) && !Stalls(m, loop, n)
    ensures !Still(m, loop, n)
  {
    hide Fine, Ends, Course;
    if Still(m, loop, n) {
      forall k: nat | k >= n ensures Fine(m, Course(m, loop, n).next, loop.handlers(k), loop.strict) {
        StaysAt(m, loop, n, k);
      }
    }
  }

  lemma PastTheEnd(m: seq<byte>, loop: Loop, n: nat)
    requires Course(m, loop, n).Goes? && Course(m, loop, n).next + 4 >= |m|
    ensures Course(m, loop, n + 1) == Ended
  {
  }

  // ----- well-formed packs, and one that is not -----

  /** The first `i` sections have known commands, and their handlers do not end the loop. */
  ghost predicate Passed(m: seq<byte>, ss: seq<Section>, loop: Loop, i: nat)
    requires i <= |ss|
  {
    forall j :: 0 <= j < i ==> Known(ss[j], loop.known) && Fine(m, Start(ss, j), loop.handlers(j), loop.strict)
  }

  lemma NonePassed(m: seq<byte>, ss: seq<Section>, loop: Loop)
    ensures Passed(m, ss, loop, 0)
  {
  }

  lemma PassedMore(m: seq<byte>, ss: seq<Section>, loop: Loop, i: nat)
    requires i < |ss|
    ensures Passed(m, ss, loop, i + 1) <==>
            && Passed(m, ss, loop, i)
            && Known(ss[i], loop.known) && Fine(m, Start(ss, i), loop.handlers(i), loop.strict)
  {
    hide Fine, Known, Start;
  }

  /** In a well-formed pack a loop goes from section to section. */
  lemma {:induction false} PackCourse(m: seq<byte>, begin: uint32, ss: seq<Section>, end: uint32, loop: Loop, i: nat)
    requires Pack(m, begin, ss, end) && i <= |ss|
    ensures Course(m, loop, i) == if Passed(m, ss, loop, i) then Goes(Start(ss, i)) else Refused
    decreases i
  {
    hide Pack, Start, WordAt, Known, Header, Passed, Fine;
    PackStarts(m, begin, ss, end);
    if i == 0 {
      NonePassed(m, ss, loop);
    } else {
      PackCourse(m, begin, ss, end, loop, i - 1);
      PassedMore(m, ss, loop, i - 1);
      StartMore(ss, i - 1);
      PackRound(m, begin, ss, end, loop.known, i - 1);
    }
  }

  lemma PackRound(m: seq<byte>, begin: uint32, ss: seq<Section>, end: uint32, known: set<seq<byte>>, i: nat)
    requires Pack(m, begin, ss, end) && i < |ss|
    ensures Header(m, Start(ss, i), known) <==> Known(ss[i], known)
    ensures Header(m, Start(ss, i), known) ==> Start(ss, i) + WordAt(m, Start(ss, i) + 8) == Start(ss, i + 1)
  {
    hide Pack, LE32, FromLE, SecLen, Total;
    SectionAtIndex(m, begin, ss, end, i);
  }

  /** Every loop over a well-formed pack ends, and past its last section exactly if all of them passed. */
  lemma PackEnds(m: seq<byte>, begin: uint32, ss: seq<Section>, end: uint32, loop: Loop)
    requires Pack(m, begin, ss, end)
    ensures Ends(m, loop)
    ensures Course(m, loop, |ss| + 1) == Ended <==> Passed(m, ss, loop, |ss|)
  {
    hide Pack, Start, Known, Header, WordAt, Passed, Fine;
    PackStarts(m, begin, ss, end);
    PackCourse(m, begin, ss, end, loop, |ss|);
    assert !Course(m, loop, |ss| + 1).Goes?;
  }

  /** A request of five words, well-formed but for a length of 0: the loop never leaves its only section. */
  lemma NeverEnds(opening: uint32, cmd: uint32, end: uint32, loop: Loop)
    requires LE32(cmd) in loop.known && !loop.strict && forall k: nat :: loop.handlers(k).content
    ensures var m := LE32(opening) + LE32(SECTION_MAGIC) + LE32(cmd) + LE32(0) + LE32(end);
            Opens(m, opening) && !Ends(m, loop)
  {
    var m := LE32(opening) + LE32(SECTION_MAGIC) + LE32(cmd) + LE32(0) + LE32(end);
    LE32RoundTrip(0);
    hide LE32, FromLE;
    assert m[..4] == LE32(opening) && m[4..8] == LE32(SECTION_MAGIC) && m[8..12] == LE32(cmd) && m[12..16] == LE32(0);
    assert Stalls(m, loop, 0);
    EndsIff(m, loop);
  }
}
