/** The USB port's `LineBreaker<N>` (src/usb.rs): the same framing over a
    `heapless::Vec<u8, N>`, handing back the whole line. */
module UsbLineBreakers {
  import opened Base
  import opened FixedVecs
  import opened LineFraming
  import LineBreakers

  datatype ProcessResult =
    | NoLine
    | Line(bytes: seq<Byte>)
      /** `assert!(..., "No room for line fragment")` fails. */
    | FragmentPanic

  /** The result of a call that took framer step `t`. */
  function Outcome(t: Step): (r: ProcessResult)
    requires t.Completed? ==> t.lineLen <= |t.next.buffer|
    ensures r.Line? <==> t.Completed?
    ensures r.FragmentPanic? <==> t.FragmentOverflow?
  {
    match t
    case NeedMore(_) => NoLine
    case FragmentOverflow => FragmentPanic
    case Completed(n, len) => Line(n.buffer[..len])
  }

  class LineBreaker {
    /** The `heapless::Vec`'s contents; its capacity is the type parameter `N`. */
    var buffer: seq<Byte>
    const n: nat
    var usedPrefix: nat
    var discard: bool

    ghost predicate Valid()
      reads this
    {
      |buffer| <= n && usedPrefix <= |buffer|
    }

    function State(): (s: FramerState)
      reads this
      requires Valid()
      ensures Inv(s, n)
    {
      FramerState(buffer, usedPrefix, discard)
    }

    constructor (n: nat)
      ensures Valid() && this.n == n && State() == Initial()
    {
      this.n := n;
      buffer := [];
      usedPrefix := 0;
      discard := false;
    }

    /** `heapless::Vec::extend_from_slice`: all or nothing. */
    method Extend(src: seq<Byte>) returns (ok: bool)
      requires Valid()
      modifies this
      ensures Valid() && usedPrefix == old(usedPrefix) && discard == old(discard)
      ensures ok <==> old(|buffer|) + |src| <= n
      ensures buffer == if ok then old(buffer) + src else old(buffer)
    {
      if |buffer| + |src| > n {
        return false;
      }
      buffer := buffer + src;
      return true;
    }

    /** The compaction at the start of `process`. */
    method DropReturnedPrefix()
      requires Valid()
      modifies this
      ensures Valid() && State() == Compact(old(State()))
    {
      if usedPrefix > 0 {
        var len := |buffer|;
        var before := buffer;
        buffer := CopiedWithin(buffer, usedPrefix, len, 0);
        // `resize` to a shorter length cannot exceed `N`
        assert len - usedPrefix <= n;
        buffer := Resized(buffer, len - usedPrefix, 0);
        CompactionDropsPrefix(before, usedPrefix, 0);
        usedPrefix := 0;
      }
    }

    /** `process(buf)`: on every path that does not panic the fields become
        the framer's next state. */
    method Process(chunk: seq<Byte>) returns (r: ProcessResult)
      requires Valid()
      modifies this
      ensures Valid()
      ensures var t := Transition(old(State()), chunk, n);
        r == Outcome(t) && (!t.FragmentOverflow? ==> State() == t.next)
    {
      ghost var s := State();
      DropReturnedPrefix();
      TransitionAfterCompaction(s, chunk, n);
      if |chunk| == 0 {
        return NoLine;
      }
      match FirstNewline(chunk) {
        case Some(i) =>
          var first, rest := chunk[..i], chunk[i + 1..];
          if discard {
            buffer := [];
            var ok := Extend(rest);
            if !ok {
              return FragmentPanic;
            }
            discard := false;
            return NoLine;
          }
          var ok := Extend(first);
          if ok {
            var lineLen := |buffer|;
            ok := Extend(rest);
            if !ok {
              discard := true;
            }
            usedPrefix := lineLen;
            return Line(buffer[..lineLen]);
          } else {
            buffer := [];
            discard := true;
            return NoLine;
          }
        case None =>
          var ok := Extend(chunk);
          if ok {
            return NoLine;
          }
          buffer := [];
          discard := true;
          return NoLine;
      }
    }
  }

  /** A returned line is exactly the pending bytes followed by the chunk up
      to its first newline: no byte lost, no newline included when none was
      pending. */
  lemma ReturnedLineIsWholeLine(s: FramerState, chunk: seq<Byte>, cap: nat)
    requires Inv(s, cap)
    ensures var r := Outcome(Transition(s, chunk, cap));
      r.Line? ==>
        && NEWLINE in chunk
        && r.bytes == Pending(s) + chunk[..FirstNewline(chunk).value]
        && (NEWLINE !in Pending(s) ==> NEWLINE !in r.bytes)
  {
    CompletesExactlyWhenLineFits(s, chunk, cap);
  }

  /** The USB breaker returns a line exactly when the FixedVec breaker
      would, and the latter's line is the former's short of its last byte. */
  lemma BreakersAgreeUpToLastByte(s: FramerState, chunk: seq<Byte>, cap: nat)
    requires Inv(s, cap)
    ensures var t := Transition(s, chunk, cap);
      var u, f := Outcome(t), LineBreakers.Outcome(t);
      && (u.Line? && |u.bytes| > 0 <==> f.Line?)
      && (f.Line? ==> f.bytes == u.bytes[..|u.bytes| - 1])
  {
  }
}
