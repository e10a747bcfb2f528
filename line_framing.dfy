/** The state machine shared by both line breakers (src/line_breaker.rs and
    src/usb.rs): a bounded accumulation buffer, the length of the line that
    the previous call handed out (`used_prefix`), and a flag that drops the
    rest of an over-long line (`discard`). The two files differ only in which
    slice of the buffer they return; that part lives with each class. */
module LineFraming {
  import opened Base

  datatype FramerState = FramerState(buffer: seq<Byte>, usedPrefix: nat, discard: bool)

  /** What every call may assume and must re-establish. */
  predicate Inv(s: FramerState, cap: nat)
  {
    |s.buffer| <= cap && s.usedPrefix <= |s.buffer|
  }

  /** The bytes that have not been handed out yet. */
  function Pending(s: FramerState): seq<Byte>
    requires s.usedPrefix <= |s.buffer|
  {
    s.buffer[s.usedPrefix..]
  }

  /** Position of the first `\n` (what `splitn(2, |b| *b == b'\n')` splits at). */
  function FirstNewline(chunk: seq<Byte>): (r: Option<nat>)
    ensures r.None? <==> NEWLINE !in chunk
    ensures r.Some? ==> r.value < |chunk| && chunk[r.value] == NEWLINE && NEWLINE !in chunk[..r.value]
  {
    if chunk == [] then None
    else if chunk[0] == NEWLINE then Some(0)
    else match FirstNewline(chunk[1..])
      case None => None
      case Some(j) =>
        assert chunk[..j + 1] == [chunk[0]] + chunk[1..][..j];
        Some(j + 1)
  }

  /** What one call decides before a line is cut out of the buffer. */
  datatype Step =
    | NeedMore(next: FramerState)
      /** A line ended; it occupies `next.buffer[..lineLen]`. */
    | Completed(next: FramerState, lineLen: nat)
      /** `assert!(..., "No room for line fragment")` fails. */
    | FragmentOverflow

  /** Step 1 of every call: shift out the line returned last time. */
  function Compact(s: FramerState): (c: FramerState)
    requires s.usedPrefix <= |s.buffer|
    ensures c.buffer == Pending(s) && c.usedPrefix == 0 && c.discard == s.discard
  {
    FramerState(s.buffer[s.usedPrefix..], 0, s.discard)
  }

  /** One `process(chunk)` call as written, on a buffer of capacity `cap`. */
  function Transition(s: FramerState, chunk: seq<Byte>, cap: nat): (r: Step)
    requires Inv(s, cap)
    ensures r.NeedMore? ==> Inv(r.next, cap) && r.next.usedPrefix == 0
    ensures r.Completed? ==> Inv(r.next, cap) && r.next.usedPrefix == r.lineLen
  {
    var c := Compact(s);
    if chunk == [] then NeedMore(c)
    else match FirstNewline(chunk)
      case Some(i) =>
        var first, rest := chunk[..i], chunk[i + 1..];
        if c.discard then
          // drop the partial line, keep the start of the next one
          if |rest| <= cap then NeedMore(FramerState(rest, 0, false)) else FragmentOverflow
        else if |c.buffer| + |first| <= cap then
          var line := c.buffer + first;
          if |line| + |rest| <= cap then Completed(FramerState(line + rest, |line|, false), |line|)
          else Completed(FramerState(line, |line|, true), |line|)
        else
          NeedMore(FramerState([], 0, true))
      case None =>
        if |c.buffer| + |chunk| <= cap then NeedMore(FramerState(c.buffer + chunk, 0, c.discard))
        else NeedMore(FramerState([], 0, true))
  }

  /** A new breaker, and one after `reset`. */
  function Initial(): (s: FramerState)
    ensures s.buffer == [] && s.usedPrefix == 0 && !s.discard
    ensures forall cap: nat :: Inv(s, cap)
  {
    FramerState([], 0, false)
  }

  // ---------------------------------------------------------------------
  // Properties of one call

  /** The first newline of `pre + [\n] + post` is the one after `pre` when
      `pre` has none. */
  lemma FirstNewlineAt(pre: seq<Byte>, post: seq<Byte>)
    requires NEWLINE !in pre
    ensures FirstNewline(pre + [NEWLINE] + post) == Some(|pre|)
  {
    var c := pre + [NEWLINE] + post;
    assert c[|pre|] == NEWLINE;
  }

  /** A line is completed exactly when the chunk holds a newline, no line is
      being discarded and the finished line fits; it is then the pending
      bytes followed by the chunk up to its first newline. */
  lemma CompletesExactlyWhenLineFits(s: FramerState, chunk: seq<Byte>, cap: nat)
    requires Inv(s, cap)
    ensures var r := Transition(s, chunk, cap);
      r.Completed? <==> (!s.discard && NEWLINE in chunk && |Pending(s)| + FirstNewline(chunk).value <= cap)
    ensures var r := Transition(s, chunk, cap);
      r.Completed? ==> r.next.buffer[..r.lineLen] == Pending(s) + chunk[..FirstNewline(chunk).value]
  {
  }

  /** The only assertion failure: after a dropped line, the bytes following
      the newline do not fit in the emptied buffer. */
  lemma FragmentOverflowExactly(s: FramerState, chunk: seq<Byte>, cap: nat)
    requires Inv(s, cap)
    ensures Transition(s, chunk, cap).FragmentOverflow? <==>
      (s.discard && NEWLINE in chunk && |chunk| - FirstNewline(chunk).value - 1 > cap)
  {
  }

  /** A call depends on the previous state only through what it compacts to. */
  lemma TransitionAfterCompaction(s: FramerState, chunk: seq<Byte>, cap: nat)
    requires Inv(s, cap)
    ensures Inv(Compact(s), cap)
    ensures Transition(s, chunk, cap) == Transition(Compact(s), chunk, cap)
  {
  }

  /** An empty chunk returns nothing and only removes the returned prefix. */
  lemma EmptyChunkOnlyCompacts(s: FramerState, cap: nat)
    requires Inv(s, cap)
    ensures Transition(s, [], cap) == NeedMore(Compact(s))
  {
  }

  /** A chunk without a newline is appended when it fits; otherwise the
      buffer is emptied and the line is marked for discarding. */
  lemma ChunkWithoutNewline(s: FramerState, chunk: seq<Byte>, cap: nat)
    requires Inv(s, cap) && chunk != [] && NEWLINE !in chunk
    ensures |Pending(s)| + |chunk| <= cap ==>
      Transition(s, chunk, cap) == NeedMore(FramerState(Pending(s) + chunk, 0, s.discard))
    ensures |Pending(s)| + |chunk| > cap ==>
      Transition(s, chunk, cap) == NeedMore(FramerState([], 0, true))
  {
  }

  /** In discard mode a newline ends the dropped line; what follows it
      becomes the whole buffer and discarding stops. */
  lemma DiscardEndsAtNewline(s: FramerState, chunk: seq<Byte>, cap: nat)
    requires Inv(s, cap) && s.discard && NEWLINE in chunk
    ensures var rest := chunk[FirstNewline(chunk).value + 1..];
      |rest| <= cap ==> Transition(s, chunk, cap) == NeedMore(FramerState(rest, 0, false))
  {
  }

  /** A completed line keeps the bytes after the newline when they fit;
      otherwise it sets `discard`, so the following line is dropped. */
  lemma RemainderKeptOrNextLineDiscarded(s: FramerState, chunk: seq<Byte>, cap: nat)
    requires Inv(s, cap)
    requires Transition(s, chunk, cap).Completed?
    ensures var r := Transition(s, chunk, cap);
      var rest := chunk[FirstNewline(chunk).value + 1..];
      if r.lineLen + |rest| <= cap
      then r.next.buffer[r.lineLen..] == rest && !r.next.discard
      else r.next.buffer[r.lineLen..] == [] && r.next.discard
  {
  }

  /** A line that does not fit is dropped entirely: the buffer is emptied
      and discarding starts, whether or not the chunk held its newline. */
  lemma OverlongLineDropped(s: FramerState, chunk: seq<Byte>, cap: nat)
    requires Inv(s, cap) && !s.discard && chunk != []
    requires var i := FirstNewline(chunk);
      if i.Some? then |Pending(s)| + i.value > cap else |Pending(s)| + |chunk| > cap
    ensures Transition(s, chunk, cap) == NeedMore(FramerState([], 0, true))
  {
  }

  // ---------------------------------------------------------------------
  // Several calls

  /** Feeds chunks one call at a time and collects the completed lines (as
      the `next.buffer[..lineLen]` slices); `None` once an assertion fails. */
  function Feed(s: FramerState, chunks: seq<seq<Byte>>, cap: nat): (r: Option<(seq<seq<Byte>>, FramerState)>)
    requires Inv(s, cap)
    ensures r.Some? ==> Inv(r.value.1, cap)
    decreases |chunks|
  {
    if chunks == [] then Some(([], s))
    else
      var t := Transition(s, chunks[0], cap);
      if t.FragmentOverflow? then None
      else
        var later := Feed(t.next, chunks[1..], cap);
        if later.None? || t.NeedMore? then later
        else Some(([t.next.buffer[..t.lineLen]] + later.value.0, later.value.1))
  }

  /** `Feed` over a call that returns no line continues from its state. */
  lemma FeedNeedMore(s: FramerState, c: seq<Byte>, rest: seq<seq<Byte>>, cap: nat, n: FramerState)
    requires Inv(s, cap) && Transition(s, c, cap) == NeedMore(n)
    ensures Feed(s, [c] + rest, cap) == Feed(n, rest, cap)
  {
    assert ([c] + rest)[1..] == rest;
  }

  /** `Feed` over a call that completes a line puts that line first. */
  lemma FeedCompleted(s: FramerState, c: seq<Byte>, rest: seq<seq<Byte>>, cap: nat,
                      n: FramerState, len: nat, lines: seq<seq<Byte>>, last: FramerState)
    requires Inv(s, cap) && Transition(s, c, cap) == Completed(n, len)
    requires Feed(n, rest, cap) == Some((lines, last))
    ensures Feed(s, [c] + rest, cap) == Some(([n.buffer[..len]] + lines, last))
  {
    assert ([c] + rest)[1..] == rest;
  }

  /** A call with room for everything completes the pending bytes followed
      by the chunk up to its newline, and keeps what follows. */
  lemma CompletesWithRoom(s: FramerState, first: seq<Byte>, rest: seq<Byte>, cap: nat)
    requires Inv(s, cap) && !s.discard && NEWLINE !in first
    requires |Pending(s)| + |first| + |rest| <= cap
    ensures Transition(s, first + [NEWLINE] + rest, cap)
         == Completed(FramerState(Pending(s) + first + rest, |Pending(s)| + |first|, false), |Pending(s)| + |first|)
  {
    var chunk := first + [NEWLINE] + rest;
    FirstNewlineAt(first, rest);
    assert chunk[..|first|] == first && chunk[|first| + 1..] == rest;
  }

  /** In discard mode, a newline ends the dropped line and what follows it
      is kept. */
  lemma DiscardsThroughNewline(s: FramerState, first: seq<Byte>, rest: seq<Byte>, cap: nat)
    requires Inv(s, cap) && s.discard && NEWLINE !in first && |rest| <= cap
    ensures Transition(s, first + [NEWLINE] + rest, cap) == NeedMore(FramerState(rest, 0, false))
  {
    var chunk := first + [NEWLINE] + rest;
    FirstNewlineAt(first, rest);
    assert chunk[|first| + 1..] == rest;
  }

  /** After an over-long line whose newline comes in a later chunk, the
      next line is reconstructed exactly: a chunk ending the dropped line
      and a chunk holding the next line yield that next line and nothing
      else. `OverlongLineSwallowsNext` shows the newline in the same chunk. */
  lemma {:induction false} LineAfterOverlongLine(cap: nat, longLine: seq<Byte>, tail: seq<Byte>, next: seq<Byte>)
    requires |longLine| > cap && NEWLINE !in longLine
    requires NEWLINE !in tail && NEWLINE !in next
    requires |next| <= cap
    ensures Feed(Initial(), [longLine, tail + [NEWLINE], next + [NEWLINE]], cap)
         == Some(([next], FramerState(next, |next|, false)))
  {
    var s1 := FramerState([], 0, true);
    OverlongLineDropped(Initial(), longLine, cap);
    LineAfterDiscard(cap, tail, next);
    FeedNeedMore(Initial(), longLine, [tail + [NEWLINE], next + [NEWLINE]], cap, s1);
    assert [longLine] + [tail + [NEWLINE], next + [NEWLINE]] == [longLine, tail + [NEWLINE], next + [NEWLINE]];
  }

  /** An over-long line whose newline comes in the same chunk still sets
      `discard`, so the next line is dropped as well: chunks holding an
      over-long line and then a short one yield no line at all. */
  lemma {:induction false} OverlongLineSwallowsNext(cap: nat, longLine: seq<Byte>, next: seq<Byte>)
    requires |longLine| > cap && NEWLINE !in longLine && NEWLINE !in next
    ensures Feed(Initial(), [longLine + [NEWLINE], next + [NEWLINE]], cap)
         == Some(([], FramerState([], 0, false)))
  {
    var c1, c2 := longLine + [NEWLINE], next + [NEWLINE];
    var s1 := FramerState([], 0, true);
    OverlongChunkDropped(cap, longLine);
    DiscardedLineEnds(cap, next);
    FeedNeedMore(Initial(), c1, [c2], cap, s1);
    assert [c1] + [c2] == [c1, c2];
  }

  /** A chunk holding an over-long line and its newline empties the buffer
      and starts discarding. */
  lemma OverlongChunkDropped(cap: nat, longLine: seq<Byte>)
    requires |longLine| > cap && NEWLINE !in longLine
    ensures Transition(Initial(), longLine + [NEWLINE], cap) == NeedMore(FramerState([], 0, true))
  {
    FirstNewlineAt(longLine, []);
    assert longLine + [NEWLINE] == longLine + [NEWLINE] + [];
    OverlongLineDropped(Initial(), longLine + [NEWLINE], cap);
  }

  /** In discard mode, a chunk holding a whole line only ends the discard. */
  lemma DiscardedLineEnds(cap: nat, next: seq<Byte>)
    requires NEWLINE !in next
    ensures Inv(FramerState([], 0, true), cap)
    ensures Feed(FramerState([], 0, true), [next + [NEWLINE]], cap) == Some(([], FramerState([], 0, false)))
  {
    var c2 := next + [NEWLINE];
    var s1, s2 := FramerState([], 0, true), FramerState([], 0, false);
    DiscardsThroughNewline(s1, next, [], cap);
    assert c2 == next + [NEWLINE] + [];
    assert Feed(s2, [], cap) == Some(([], s2));
    FeedNeedMore(s1, c2, [], cap, s2);
    assert [c2] + [] == [c2];
  }

  /** In discard mode, the chunk ending the dropped line and then a chunk
      holding one whole line yield that line alone. */
  lemma LineAfterDiscard(cap: nat, tail: seq<Byte>, next: seq<Byte>)
    requires NEWLINE !in tail && NEWLINE !in next && |next| <= cap
    ensures Inv(FramerState([], 0, true), cap)
    ensures Feed(FramerState([], 0, true), [tail + [NEWLINE], next + [NEWLINE]], cap)
         == Some(([next], FramerState(next, |next|, false)))
  {
    var c2, c3 := tail + [NEWLINE], next + [NEWLINE];
    var s1, s2 := FramerState([], 0, true), FramerState([], 0, false);
    DiscardsThroughNewline(s1, tail, [], cap);
    assert c2 == tail + [NEWLINE] + [];
    WholeLineFed(cap, next);
    FeedNeedMore(s1, c2, [c3], cap, s2);
    assert [c2] + [c3] == [c2, c3];
  }

  /** From an empty buffer, one chunk holding one whole line yields it. */
  lemma WholeLineFed(cap: nat, line: seq<Byte>)
    requires NEWLINE !in line && |line| <= cap
    ensures Inv(FramerState([], 0, false), cap)
    ensures Feed(FramerState([], 0, false), [line + [NEWLINE]], cap)
         == Some(([line], FramerState(line, |line|, false)))
  {
    var c, s, t := line + [NEWLINE], FramerState([], 0, false), FramerState(line, |line|, false);
    CompletesWithRoom(s, line, [], cap);
    assert c == line + [NEWLINE] + [] && [] + line + [] == line;
    assert Feed(t, [], cap) == Some(([], t));
    FeedCompleted(s, c, [], cap, t, |line|, [], t);
    assert [c] + [] == [c] && t.buffer[..|line|] == line;
    assert [t.buffer[..|line|]] + [] == [line];
  }

  /** Conservation, as written: with room for everything, a completed line
      followed by its newline and the bytes still pending is exactly what
      was pending before followed by the chunk. */
  lemma CompletedLineConservesBytes(s: FramerState, chunk: seq<Byte>, cap: nat)
    requires Inv(s, cap) && !s.discard && NEWLINE in chunk
    requires |Pending(s)| + |chunk| <= cap
    ensures var r := Transition(s, chunk, cap);
      r.Completed? &&
      r.next.buffer[..r.lineLen] + [NEWLINE] + Pending(r.next) == Pending(s) + chunk
  {
    var i := FirstNewline(chunk).value;
    var p, first, rest := Pending(s), chunk[..i], chunk[i + 1..];
    assert chunk == first + [NEWLINE] + rest;
    CompletesWithRoom(s, first, rest, cap);
    RejoinLine(p, first, rest);
  }

  /** Cutting `p + first + rest` after `first` and putting the newline back
      gives `p` followed by the chunk. */
  lemma RejoinLine(p: seq<Byte>, first: seq<Byte>, rest: seq<Byte>)
    ensures var b := p + first + rest;
      b[..|p| + |first|] + [NEWLINE] + b[|p| + |first|..] == p + (first + [NEWLINE] + rest)
  {
    var b := p + first + rest;
    assert b[..|p| + |first|] == p + first;
    assert b[|p| + |first|..] == rest;
  }

  /** FINDING, as written: the bytes kept after the first newline are never
      searched for a newline again, so a second line buffered by one call is
      glued to the next one. Chunks "AB\nCD\n" then "EF\n" yield the lines
      "AB" and "CD\nEF". */
  lemma BufferedNewlineSwallowed(cap: nat)
    requires cap >= 8
    ensures Feed(Initial(), [[65, 66, NEWLINE, 67, 68, NEWLINE], [69, 70, NEWLINE]], cap)
         == Some(([[65, 66], [67, 68, NEWLINE, 69, 70]], FramerState([67, 68, NEWLINE, 69, 70], 5, false)))
  {
    var c1, c2: seq<Byte> := [65, 66, NEWLINE, 67, 68, NEWLINE], [69, 70, NEWLINE];
    var line2: seq<Byte> := [67, 68, NEWLINE, 69, 70];
    var s1 := FramerState([65, 66, 67, 68, NEWLINE], 2, false);
    var s2 := FramerState(line2, 5, false);
    FirstChunkBuffersSecondLine(cap);
    SecondChunkGluesLines(cap);
    FeedCompleted(Initial(), c1, [c2], cap, s1, 2, [line2], s2);
    assert [c1] + [c2] == [c1, c2] && s1.buffer[..2] == [65, 66];
    assert [s1.buffer[..2]] + [line2] == [[65, 66], line2];
  }

  /** The first call of that run: "AB\nCD\n" returns "AB" and keeps
      "CD\n" pending. */
  lemma FirstChunkBuffersSecondLine(cap: nat)
    requires cap >= 8
    ensures Transition(Initial(), [65, 66, NEWLINE, 67, 68, NEWLINE], cap)
         == Completed(FramerState([65, 66, 67, 68, NEWLINE], 2, false), 2)
  {
    var first, rest: seq<Byte> := [65, 66], [67, 68, NEWLINE];
    assert Pending(Initial()) == [];
    CompletesWithRoom(Initial(), first, rest, cap);
    assert [65, 66, NEWLINE, 67, 68, NEWLINE] == first + [NEWLINE] + rest;
    assert Pending(Initial()) + first + rest == [65, 66, 67, 68, NEWLINE];
  }

  /** The second call of that run: "EF\n" completes the line "CD\nEF". */
  lemma SecondChunkGluesLines(cap: nat)
    requires cap >= 8
    ensures Inv(FramerState([65, 66, 67, 68, NEWLINE], 2, false), cap)
    ensures Feed(FramerState([65, 66, 67, 68, NEWLINE], 2, false), [[69, 70, NEWLINE]], cap)
         == Some(([[67, 68, NEWLINE, 69, 70]], FramerState([67, 68, NEWLINE, 69, 70], 5, false)))
  {
    var c2: seq<Byte> := [69, 70, NEWLINE];
    var line2: seq<Byte> := [67, 68, NEWLINE, 69, 70];
    var s1 := FramerState([65, 66, 67, 68, NEWLINE], 2, false);
    var s2 := FramerState(line2, 5, false);
    assert Pending(s1) == [67, 68, NEWLINE];
    CompletesWithRoom(s1, [69, 70], [], cap);
    assert c2 == [69, 70] + [NEWLINE] + [];
    assert Pending(s1) + [69, 70] + [] == line2;
    assert Feed(s2, [], cap) == Some(([], s2));
    FeedCompleted(s1, c2, [], cap, s2, 5, [], s2);
    assert [c2] + [] == [c2] && s2.buffer[..5] == line2;
    assert [s2.buffer[..5]] + [] == [line2];
  }

  // ---------------------------------------------------------------------
  // The evidently intended framer: a newline already buffered ends a line.

  /** Joins lines, each followed by its newline. */
  function Joined(lines: seq<seq<Byte>>): (r: seq<Byte>)
  {
    if lines == [] then [] else lines[0] + [NEWLINE] + Joined(lines[1..])
  }

  /** One call of the corrected framer. It differs from `Transition` only
      when the pending bytes already hold a newline: then the line before
      that newline is returned and the chunk is queued behind the rest of
      the pending bytes; if the chunk does not fit, the pending rest and the
      chunk are dropped and `discard` is set, the policy `Transition` applies
      to a remainder that does not fit. */
  function CorrectedTransition(s: FramerState, chunk: seq<Byte>, cap: nat): (r: Step)
    requires Inv(s, cap)
    ensures r.NeedMore? ==> Inv(r.next, cap) && r.next.usedPrefix == 0
    ensures r.Completed? ==> Inv(r.next, cap) && r.next.usedPrefix == r.lineLen
  {
    var c := Compact(s);
    match FirstNewline(c.buffer)
      case Some(j) =>
        var line, after := c.buffer[..j], c.buffer[j + 1..];
        if |c.buffer| + |chunk| <= cap then Completed(FramerState(line + after + chunk, j, false), j)
        else Completed(FramerState(line, j, true), j)
      case None => Transition(s, chunk, cap)
  }

  /** A line returned by the corrected framer never holds a newline, unlike
      the one `BufferedNewlineSwallowed` exhibits. */
  lemma CorrectedLineHasNoNewline(s: FramerState, chunk: seq<Byte>, cap: nat)
    requires Inv(s, cap) && !s.discard
    requires CorrectedTransition(s, chunk, cap).Completed?
    ensures var r := CorrectedTransition(s, chunk, cap);
      NEWLINE !in r.next.buffer[..r.lineLen]
  {
    var r := CorrectedTransition(s, chunk, cap);
    var p := Pending(s);
    match FirstNewline(p)
    case Some(j) =>
      assert r.next.buffer[..r.lineLen] == p[..j];
    case None =>
      var i := FirstNewline(chunk).value;
      assert r.next.buffer[..r.lineLen] == p + chunk[..i];
  }

  /** With a newline already pending, the corrected framer returns the
      line before it and, given room, queues the chunk behind the rest. */
  lemma CorrectedBufferedStep(s: FramerState, chunk: seq<Byte>, cap: nat)
    requires Inv(s, cap) && FirstNewline(Pending(s)).Some?
    requires |Pending(s)| + |chunk| <= cap
    ensures var p, j := Pending(s), FirstNewline(Pending(s)).value;
      CorrectedTransition(s, chunk, cap) == Completed(FramerState(p[..j] + p[j + 1..] + chunk, j, false), j)
  {
  }

  /** The line returned from the pending bytes, its newline and what stays
      pending spell out the pending bytes and the chunk. */
  lemma CorrectedBufferedLine(s: FramerState, chunk: seq<Byte>, cap: nat)
    requires Inv(s, cap) && FirstNewline(Pending(s)).Some?
    requires |Pending(s)| + |chunk| <= cap
    ensures var r := CorrectedTransition(s, chunk, cap);
      && r.Completed? && !r.next.discard
      && r.next.buffer[..r.lineLen] + [NEWLINE] + Pending(r.next) == Pending(s) + chunk
  {
    CorrectedBufferedStep(s, chunk, cap);
    RejoinAtNewline(Pending(s), FirstNewline(Pending(s)).value, chunk);
  }

  /** Cutting the newline at `j` out of `p` and appending `chunk`, then
      putting the newline back, restores `p + chunk`. */
  lemma RejoinAtNewline(p: seq<Byte>, j: nat, chunk: seq<Byte>)
    requires j < |p| && p[j] == NEWLINE
    ensures var b := p[..j] + p[j + 1..] + chunk;
      b[..j] + [NEWLINE] + b[j..] == p + chunk
  {
    var b := p[..j] + p[j + 1..] + chunk;
    assert b[..j] == p[..j];
    assert b[j..] == p[j + 1..] + chunk;
    assert p == p[..j] + [NEWLINE] + p[j + 1..];
  }

  /** Without a pending newline the corrected framer is the one as written. */
  lemma CorrectedFallsBack(s: FramerState, chunk: seq<Byte>, cap: nat)
    requires Inv(s, cap) && FirstNewline(Pending(s)).None?
    ensures CorrectedTransition(s, chunk, cap) == Transition(s, chunk, cap)
  {
  }

  /** The corrected framer conserves bytes when nothing overflows: the
      returned line and its newline, followed by what stays pending, is what
      was pending followed by the chunk; with no line returned, the chunk is
      simply queued. */
  lemma CorrectedConservesBytes(s: FramerState, chunk: seq<Byte>, cap: nat)
    requires Inv(s, cap) && !s.discard
    requires |Pending(s)| + |chunk| <= cap
    ensures var r := CorrectedTransition(s, chunk, cap);
      && !r.FragmentOverflow? && !r.next.discard
      && (r.Completed? ==> r.next.buffer[..r.lineLen] + [NEWLINE] + Pending(r.next) == Pending(s) + chunk)
      && (r.NeedMore? ==> Pending(r.next) == Pending(s) + chunk)
  {
    var p := Pending(s);
    if FirstNewline(p).Some? {
      CorrectedBufferedLine(s, chunk, cap);
    } else {
      CorrectedFallsBack(s, chunk, cap);
      if NEWLINE in chunk {
        CompletedLineConservesBytes(s, chunk, cap);
      } else if chunk == [] {
        EmptyChunkOnlyCompacts(s, cap);
      } else {
        ChunkWithoutNewline(s, chunk, cap);
      }
    }
  }

  /** Feeds chunks to the corrected framer. */
  function CorrectedFeed(s: FramerState, chunks: seq<seq<Byte>>, cap: nat): (r: Option<(seq<seq<Byte>>, FramerState)>)
    requires Inv(s, cap)
    ensures r.Some? ==> Inv(r.value.1, cap)
    decreases |chunks|
  {
    if chunks == [] then Some(([], s))
    else
      var t := CorrectedTransition(s, chunks[0], cap);
      if t.FragmentOverflow? then None
      else
        var later := CorrectedFeed(t.next, chunks[1..], cap);
        if later.None? || t.NeedMore? then later
        else Some(([t.next.buffer[..t.lineLen]] + later.value.0, later.value.1))
  }

  function Concat(chunks: seq<seq<Byte>>): seq<Byte>
  {
    if chunks == [] then [] else chunks[0] + Concat(chunks[1..])
  }

  lemma AppendAssoc(a: seq<Byte>, b: seq<Byte>, c: seq<Byte>)
    ensures (a + b) + c == a + (b + c)
  {
  }

  /** One more line in front of a stream that is already accounted for. */
  lemma JoinedStep(line: seq<Byte>, later: seq<seq<Byte>>, left: seq<Byte>,
                   pending: seq<Byte>, more: seq<Byte>, before: seq<Byte>, chunk: seq<Byte>)
    requires Joined(later) + left == pending + more
    requires line + [NEWLINE] + pending == before + chunk
    ensures Joined([line] + later) + left == before + (chunk + more)
  {
    var lines := [line] + later;
    assert lines[1..] == later;
    calc {
      Joined(lines) + left;
      (line + [NEWLINE] + Joined(later)) + left;
      { AppendAssoc(line + [NEWLINE], Joined(later), left); }
      (line + [NEWLINE]) + (pending + more);
      { AppendAssoc(line + [NEWLINE], pending, more); }
      (before + chunk) + more;
      { AppendAssoc(before, chunk, more); }
      before + (chunk + more);
    }
  }

  /** `CorrectedFeed` over a call that returns no line continues from its state. */
  lemma CorrectedFeedNeedMore(s: FramerState, c: seq<Byte>, rest: seq<seq<Byte>>, cap: nat, n: FramerState)
    requires Inv(s, cap) && CorrectedTransition(s, c, cap) == NeedMore(n)
    ensures CorrectedFeed(s, [c] + rest, cap) == CorrectedFeed(n, rest, cap)
  {
    assert ([c] + rest)[1..] == rest;
  }

  /** `CorrectedFeed` over a call that completes a line puts that line first. */
  lemma CorrectedFeedCompleted(s: FramerState, c: seq<Byte>, rest: seq<seq<Byte>>, cap: nat,
                               n: FramerState, len: nat, lines: seq<seq<Byte>>, last: FramerState)
    requires Inv(s, cap) && CorrectedTransition(s, c, cap) == Completed(n, len)
    requires CorrectedFeed(n, rest, cap) == Some((lines, last))
    ensures CorrectedFeed(s, [c] + rest, cap) == Some(([n.buffer[..len]] + lines, last))
  {
    assert ([c] + rest)[1..] == rest;
  }

  /** Every call of the corrected framer, fed `chunks` from `s`, finds room
      in the buffer for what is pending together with its chunk. */
  predicate RoomEachCall(s: FramerState, chunks: seq<seq<Byte>>, cap: nat)
    requires Inv(s, cap)
    decreases |chunks|
  {
    chunks == [] ||
    (&& |Pending(s)| + |chunks[0]| <= cap
     && var t := CorrectedTransition(s, chunks[0], cap);
        !t.FragmentOverflow? && RoomEachCall(t.next, chunks[1..], cap))
  }

  /** However the input is chunked, the corrected framer hands out the
      lines of the stream in order: the returned lines, each followed by its
      newline, and then what is still pending, spell out exactly what was
      pending before followed by every chunk; and no line holds a newline.
      This needs room, at each call, for what is pending and the chunk. */
  lemma {:induction false} CorrectedLinesFollowStream(s: FramerState, chunks: seq<seq<Byte>>, cap: nat)
    requires Inv(s, cap) && !s.discard
    requires RoomEachCall(s, chunks, cap)
    ensures var r := CorrectedFeed(s, chunks, cap);
      && r.Some?
      && Joined(r.value.0) + Pending(r.value.1) == Pending(s) + Concat(chunks)
      && (forall k :: 0 <= k < |r.value.0| ==> NEWLINE !in r.value.0[k])
    decreases |chunks|
  {
    if chunks != [] {
      var c0, more := chunks[0], chunks[1..];
      assert chunks == [c0] + more;
      assert Concat(chunks) == c0 + Concat(more);
      CorrectedConservesBytes(s, c0, cap);
      var t := CorrectedTransition(s, c0, cap);
      var n := t.next;
      CorrectedLinesFollowStream(n, more, cap);
      var later := CorrectedFeed(n, more, cap).value;
      if t.NeedMore? {
        CorrectedFeedNeedMore(s, c0, more, cap, n);
        calc {
          Joined(later.0) + Pending(later.1);
          Pending(n) + Concat(more);
          (Pending(s) + c0) + Concat(more);
          { AppendAssoc(Pending(s), c0, Concat(more)); }
          Pending(s) + (c0 + Concat(more));
        }
      } else {
        var line := n.buffer[..t.lineLen];
        CorrectedLineHasNoNewline(s, c0, cap);
        CorrectedFeedCompleted(s, c0, more, cap, n, t.lineLen, later.0, later.1);
        JoinedStep(line, later.0, Pending(later.1), Pending(n), Concat(more), Pending(s), c0);
        var lines := [line] + later.0;
        assert forall k :: 0 <= k < |later.0| ==> lines[k + 1] == later.0[k];
      }
    }
  }

  /** A stream that fits in the buffer as a whole, together with what is
      pending, leaves room at every call: what stays pending after a call
      is never more than what was pending plus the chunk. */
  lemma {:induction false} StreamThatFitsLeavesRoom(s: FramerState, chunks: seq<seq<Byte>>, cap: nat)
    requires Inv(s, cap) && !s.discard
    requires |Pending(s)| + |Concat(chunks)| <= cap
    ensures RoomEachCall(s, chunks, cap)
    decreases |chunks|
  {
    if chunks != [] {
      var c0, more := chunks[0], chunks[1..];
      assert Concat(chunks) == c0 + Concat(more);
      CorrectedConservesBytes(s, c0, cap);
      var t := CorrectedTransition(s, c0, cap);
      if t.Completed? {
        assert |t.next.buffer[..t.lineLen] + [NEWLINE] + Pending(t.next)| == |Pending(s) + c0|;
      }
      StreamThatFitsLeavesRoom(t.next, more, cap);
    }
  }
}
