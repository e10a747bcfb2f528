/** `LineBreaker` over a `FixedVec<u8>` (src/line_breaker.rs). Each call
    follows `LineFraming.Transition`; it differs from the USB breaker only in
    the slice it hands back, which leaves out the line's final byte. */
module LineBreakers {
  import opened Base
  import opened FixedVecs
  import opened LineFraming

  /** What one `process` call does for its caller. */
  datatype ProcessResult =
    | NoLine
    | Line(bytes: seq<Byte>)
      /** `assert!(..., "No room for line fragment")` fails. */
    | FragmentPanic
      /** `line_len - 1` underflows on an empty line. */
    | EmptyLinePanic

  /** The result of a call that took framer step `t`. */
  function Outcome(t: Step): (r: ProcessResult)
    requires t.Completed? ==> t.lineLen <= |t.next.buffer|
    ensures r.Line? <==> t.Completed? && t.lineLen > 0
    ensures r.Line? ==> r.bytes + [t.next.buffer[t.lineLen - 1]] == t.next.buffer[..t.lineLen]
  {
    match t
    case NeedMore(_) => NoLine
    case FragmentOverflow => FragmentPanic
    case Completed(n, len) =>
      if len == 0 then EmptyLinePanic
      else
        assert n.buffer[..len] == n.buffer[..len - 1] + [n.buffer[len - 1]];
        Line(n.buffer[..len - 1])
  }

  class LineBreaker {
    const buffer: FixedVec<Byte>
    var usedPrefix: nat
    var discard: bool

    ghost predicate Valid()
      reads this, buffer
    {
      buffer.Valid() && usedPrefix <= |buffer.elems|
    }

    /** The fields as a framer state. */
    function State(): (s: FramerState)
      reads this, buffer
      requires Valid()
      ensures Inv(s, buffer.capacity)
    {
      FramerState(buffer.elems, usedPrefix, discard)
    }

    constructor (capacity: nat)
      ensures Valid() && fresh(buffer)
      ensures buffer.capacity == capacity && State() == Initial()
    {
      buffer := new FixedVec(capacity);
      usedPrefix := 0;
      discard := false;
    }

    /** `process(buf)`: on every path that does not panic the fields become
        the framer's next state. */
    method Process(chunk: seq<Byte>) returns (r: ProcessResult)
      requires Valid()
      modifies this, buffer
      ensures Valid()
      ensures var t := Transition(old(State()), chunk, buffer.capacity);
        r == Outcome(t) && (t.NeedMore? || t.Completed? ==> State() == t.next)
    {
      ghost var s := State();
      DropReturnedPrefix();
      TransitionAfterCompaction(s, chunk, buffer.capacity);
      if chunk == [] {
        return NoLine;
      }
      match FirstNewline(chunk) {
        case Some(i) =>
          r := ProcessNewline(chunk, i);
        case None =>
          r := ProcessFragment(chunk);
      }
    }

    /** `process` after compaction, for a chunk whose first newline is at `i`. */
    method ProcessNewline(chunk: seq<Byte>, i: nat) returns (r: ProcessResult)
      requires Valid() && usedPrefix == 0 && chunk != [] && FirstNewline(chunk) == Some(i)
      modifies this, buffer
      ensures Valid()
      ensures var t := Transition(old(State()), chunk, buffer.capacity);
        r == Outcome(t) && (t.NeedMore? || t.Completed? ==> State() == t.next)
    {
      if discard {
        r := EndDiscard(chunk, i);
      } else {
        r := CutLine(chunk, i);
      }
    }

    /** The newline ends the line being dropped; what follows it is kept. */
    method EndDiscard(chunk: seq<Byte>, i: nat) returns (r: ProcessResult)
      requires Valid() && usedPrefix == 0 && discard && chunk != [] && FirstNewline(chunk) == Some(i)
      modifies this, buffer
      ensures Valid()
      ensures var t := Transition(old(State()), chunk, buffer.capacity);
        r == Outcome(t) && (t.NeedMore? || t.Completed? ==> State() == t.next)
    {
      var rest := chunk[i + 1..];
      buffer.Clear();
      var ok := buffer.ExtendFromSlice(rest);
      if !ok {
        return FragmentPanic;
      }
      discard := false;
      return NoLine;
    }

    /** The newline ends a line: it is returned when it fits, and the bytes
        after the newline are kept when they fit as well. */
    method CutLine(chunk: seq<Byte>, i: nat) returns (r: ProcessResult)
      requires Valid() && usedPrefix == 0 && !discard && chunk != [] && FirstNewline(chunk) == Some(i)
      modifies this, buffer
      ensures Valid()
      ensures var t := Transition(old(State()), chunk, buffer.capacity);
        r == Outcome(t) && (t.NeedMore? || t.Completed? ==> State() == t.next)
    {
      var first, rest := chunk[..i], chunk[i + 1..];
      var ok := buffer.ExtendFromSlice(first);
      if ok {
        var lineLen := buffer.Len();
        ok := buffer.ExtendFromSlice(rest);
        if !ok {
          discard := true;
        }
        usedPrefix := lineLen;
        if lineLen == 0 {
          return EmptyLinePanic;
        }
        var contents := buffer.Deref();
        return Line(contents[..lineLen - 1]);
      } else {
        buffer.Clear();
        discard := true;
        return NoLine;
      }
    }

    /** `process` after compaction, for a chunk without a newline. */
    method ProcessFragment(chunk: seq<Byte>) returns (r: ProcessResult)
      requires Valid() && usedPrefix == 0 && chunk != [] && FirstNewline(chunk).None?
      modifies this, buffer
      ensures Valid()
      ensures var t := Transition(old(State()), chunk, buffer.capacity);
        r == Outcome(t) && (t.NeedMore? || t.Completed? ==> State() == t.next)
    {
      var ok := buffer.ExtendFromSlice(chunk);
      if ok {
        return NoLine;
      }
      buffer.Clear();
      discard := true;
      return NoLine;
    }

    /** The first step of `process`: shift the returned line out with
        `copy_within` and `resize`. The resize cannot fail, since it shrinks. */
    method DropReturnedPrefix()
      requires Valid()
      modifies this, buffer
      ensures Valid() && discard == old(discard)
      ensures State() == Compact(old(State()))
    {
      if usedPrefix > 0 {
        ghost var before := buffer.elems;
        var len := buffer.Len();
        buffer.CopyWithin(usedPrefix, len, 0);
        var ok := buffer.Resize(len - usedPrefix, 0);
        assert ok;
        CompactionDropsPrefix(before, usedPrefix, 0);
        usedPrefix := 0;
      }
    }

    /** `reset`: back to the state of a new breaker. */
    method Reset()
      requires Valid()
      modifies this, buffer
      ensures Valid() && State() == Initial()
    {
      buffer.Clear();
      usedPrefix := 0;
      discard := false;
    }
  }

  /** A completed line is handed back without its final byte: the pending
      bytes and the chunk up to the newline, short of one byte. */
  lemma ReturnedLineLacksLastByte(s: FramerState, chunk: seq<Byte>, cap: nat)
    requires Inv(s, cap)
    ensures var r := Outcome(Transition(s, chunk, cap));
      r.Line? ==>
        var full := Pending(s) + chunk[..FirstNewline(chunk).value];
        |full| > 0 && r.bytes == full[..|full| - 1]
  {
    CompletesExactlyWhenLineFits(s, chunk, cap);
  }

  /** A line whose completed content is empty makes `process` panic, as the
      chunk "\n" does on a new breaker. */
  lemma EmptyLinePanics(cap: nat)
    ensures Outcome(Transition(Initial(), [NEWLINE], cap)) == EmptyLinePanic
  {
    FirstNewlineAt([], []);
    assert [NEWLINE] == [] + [NEWLINE] + [];
  }

  /** A line ended by "\r\n" comes back without the '\r': the chunk
      "AB\r\n" yields "AB". */
  lemma CrLfLineLosesCr(cap: nat)
    requires cap >= 3
    ensures Outcome(Transition(Initial(), [65, 66, ASCII_CR, NEWLINE], cap)) == Line([65, 66])
  {
    CompletesWithRoom(Initial(), [65, 66, ASCII_CR], [], cap);
    assert [65, 66, ASCII_CR, NEWLINE] == [65, 66, ASCII_CR] + [NEWLINE] + [];
    assert [] + [65, 66, ASCII_CR] + [] == [65, 66, ASCII_CR];
  }
}
