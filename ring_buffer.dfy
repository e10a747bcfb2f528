/** `RingBuffer<T, N>` (src/ring_buffer.rs): a queue of `N` slots addressed
    by a read index and a write index, each advanced modulo `N`. The slots'
    contents are written and read by the caller through the references the
    buffer hands out, so the model tracks which slots are queued, in order,
    and represents a raw slot address by its offset from the start of the buffer,
    counted in elements: slot `i` is offset `i`. */
module RingBuffers {
  import opened Base

  /** `x % n` for `x` below `2 * n`: at most one wrap. */
  lemma ModOnce(x: nat, n: nat)
    requires 0 < n && x < 2 * n
    ensures x % n == if x < n then x else x - n
  {
    if x >= n {
      assert x == n + (x - n);
    }
  }

  /** The slots `read`, `read + 1`, ... modulo `n`. */
  predicate InOrderFrom(read: nat, q: seq<nat>, n: nat)
    requires n > 0
  {
    forall k :: 0 <= k < |q| ==> q[k] == (read + k) % n
  }

  /** Dropping the oldest slot leaves the slots in order from the next
      one, still ending just before the write index. */
  lemma DropOldest(read: nat, write: nat, q: seq<nat>, n: nat)
    requires 0 < n && read < n && |q| < n && q != [] && InOrderFrom(read, q, n)
    requires write == (read + |q|) % n
    ensures (read + 1) % n < n
    ensures InOrderFrom((read + 1) % n, q[1..], n)
    ensures write == ((read + 1) % n + |q[1..]|) % n
  {
    ModOnce(read + 1, n);
    ModOnce(read + |q|, n);
    ModOnce((read + 1) % n + |q| - 1, n);
    forall k | 0 <= k < |q[1..]|
      ensures q[1..][k] == ((read + 1) % n + k) % n
    {
      assert q[1..][k] == q[k + 1];
      ModOnce(read + (k + 1), n);
      ModOnce((read + 1) % n + k, n);
    }
  }

  /** `len` as written: `read - write` when `read >= write`, and
      `N - write + read` otherwise. */
  function LenAsWritten(read: nat, write: nat, n: nat): (r: nat)
    requires read < n && write < n
    ensures r < n
    ensures r == 0 <==> read == write
  {
    if read >= write then read - write else n - write + read
  }

  /** The number of queued slots: how far `write` is ahead of `read`. */
  function QueuedCount(read: nat, write: nat, n: nat): (r: nat)
    requires read < n && write < n
    ensures r < n
    ensures r == 0 <==> read == write
  {
    if write >= read then write - read else n - read + write
  }

  /** What `next_write` hands out: a slot, or a reset when the buffer is
      full (at once inside an interrupt, otherwise after the one-second
      wait, since nothing else empties the buffer in this model). */
  datatype WriteSlot = Slot(index: nat) | Resets

  class RingBuffer {
    const n: nat
    var nextReadIdx: nat
    var nextWriteIdx: nat
    /** The queued slots, oldest first. */
    ghost var queued: seq<nat>

    ghost predicate Valid()
      reads this
    {
      && 0 < n && nextReadIdx < n && nextWriteIdx < n
      && |queued| < n
      && nextWriteIdx == (nextReadIdx + |queued|) % n
      && InOrderFrom(nextReadIdx, queued, n)
    }

    /** `RingBuffer::new`; the indices are taken modulo `N`, so `N` must be
        positive. */
    constructor (n: nat)
      requires n > 0
      ensures Valid() && this.n == n
      ensures nextReadIdx == 0 && nextWriteIdx == 0 && queued == []
    {
      this.n := n;
      nextReadIdx := 0;
      nextWriteIdx := 0;
      queued := [];
    }

    /** `is_empty`. */
    function IsEmpty(): (r: bool)
      reads this
      requires Valid()
      ensures r <==> queued == []
    {
      ModOnce(nextReadIdx + |queued|, n);
      nextReadIdx == nextWriteIdx
    }

    /** `is_full`: one slot always stays unused, so `N - 1` slots are the
        most that can be queued. */
    function IsFull(): (r: bool)
      reads this
      requires Valid()
      ensures r <==> |queued| == n - 1
    {
      ModOnce(nextReadIdx + |queued|, n);
      ModOnce(nextWriteIdx + 1, n);
      nextReadIdx == (nextWriteIdx + 1) % n
    }

    /** `len`, as written. */
    function Len(): (r: nat)
      reads this
      requires Valid()
      ensures r < n
      ensures r == 0 <==> queued == []
      ensures r == LenAsWritten(nextReadIdx, nextWriteIdx, n)
    {
      ModOnce(nextReadIdx + |queued|, n);
      if nextReadIdx >= nextWriteIdx then nextReadIdx - nextWriteIdx else n - nextWriteIdx + nextReadIdx
    }

    /** `next_read`: the oldest queued slot, or `None` with nothing changed. */
    method NextRead() returns (r: Option<nat>)
      requires Valid()
      modifies this
      ensures Valid()
      ensures old(queued) == [] ==> r == None && unchanged(this)
      ensures old(queued) != [] ==>
        && r == Some(old(nextReadIdx)) && r.value == old(queued)[0]
        && queued == old(queued)[1..]
        && nextReadIdx == (old(nextReadIdx) + 1) % n && nextWriteIdx == old(nextWriteIdx)
    {
      if IsEmpty() {
        return None;
      }
      var item := nextReadIdx;
      ModOnce(nextReadIdx + 0, n);
      assert queued[0] == item;
      DropOldest(nextReadIdx, nextWriteIdx, queued, n);
      nextReadIdx := (nextReadIdx + 1) % n;
      queued := queued[1..];
      return Some(item);
    }

    /** `next_write` when a slot is free: the slot at the write index,
        which joins the queue. */
    method NextWrite() returns (r: WriteSlot)
      requires Valid()
      modifies this
      ensures Valid()
      ensures |old(queued)| == n - 1 ==> r == Resets && unchanged(this)
      ensures |old(queued)| < n - 1 ==>
        && r == Slot(old(nextWriteIdx))
        && queued == old(queued) + [old(nextWriteIdx)]
        && nextWriteIdx == (old(nextWriteIdx) + 1) % n && nextReadIdx == old(nextReadIdx)
    {
      if IsFull() {
        return Resets;
      }
      var item := nextWriteIdx;
      AdvanceWrite();
      return Slot(item);
    }

    /** `write_done(item)` as written. The address it compares `item` with
        is `self.buffer.as_ptr().add(next_write_idx)`, and `as_ptr()` of a
        `MaybeUninit<[T; N]>` points to the whole array, so `add` steps over
        `next_write_idx` arrays of `N` elements: the offset compared with is
        `next_write_idx * N`. It returns `false` when the `assert_eq!` fails;
        otherwise the slot at the write index is committed. */
    method WriteDone(item: nat) returns (ok: bool)
      requires Valid()
      modifies this
      ensures Valid()
      ensures ok <==> item == old(nextWriteIdx) * n
      ensures !ok ==> unchanged(this)
      ensures ok ==> Committed(old(nextReadIdx), old(nextWriteIdx), old(queued))
    {
      if item != nextWriteIdx * n {
        return false;
      }
      Commit();
      return true;
    }

    /** `write_done(item)` as evidently intended: the address compared with
        is that of the slot at the write index (the array address cast to
        `*const T` before `add`). */
    method CorrectedWriteDone(item: nat) returns (ok: bool)
      requires Valid()
      modifies this
      ensures Valid()
      ensures ok <==> item == old(nextWriteIdx)
      ensures !ok ==> unchanged(this)
      ensures ok ==> Committed(old(nextReadIdx), old(nextWriteIdx), old(queued))
    {
      if item != nextWriteIdx {
        return false;
      }
      Commit();
      return true;
    }

    /** The state after the write index moves on past a committed slot:
        with a slot free, that slot joins the queue; on a full buffer the
        write index catches up with the read index and everything queued
        is lost. */
    ghost predicate Committed(read: nat, write: nat, q: seq<nat>)
      reads this
    {
      && nextReadIdx == read
      && (|q| < n - 1 ==> queued == q + [write] && nextWriteIdx == (write + 1) % n)
      && (|q| == n - 1 ==> queued == [] && nextWriteIdx == read)
    }

    /** The step `write_done` takes once its assertion holds. */
    method Commit()
      requires Valid()
      modifies this
      ensures Valid()
      ensures Committed(old(nextReadIdx), old(nextWriteIdx), old(queued))
    {
      if IsFull() {
        ModOnce(nextWriteIdx + 1, n);
        ModOnce(nextReadIdx + |queued|, n);
        nextWriteIdx := (nextWriteIdx + 1) % n;
        queued := [];
        ModOnce(nextReadIdx, n);
        return;
      }
      AdvanceWrite();
    }

    /** The shared step of `next_write` and `write_done` when a slot is free. */
    method AdvanceWrite()
      requires Valid() && |queued| < n - 1
      modifies this
      ensures Valid()
      ensures queued == old(queued) + [old(nextWriteIdx)]
      ensures nextWriteIdx == (old(nextWriteIdx) + 1) % n && nextReadIdx == old(nextReadIdx)
    {
      ModOnce(nextReadIdx + |queued|, n);
      ModOnce(nextReadIdx + |queued| + 1, n);
      ModOnce(nextWriteIdx + 1, n);
      queued := queued + [nextWriteIdx];
      nextWriteIdx := (nextWriteIdx + 1) % n;
    }

    /** `flush`: both indices back to 0, nothing queued. */
    method Flush()
      requires Valid()
      modifies this
      ensures Valid()
      ensures nextReadIdx == 0 && nextWriteIdx == 0 && queued == []
    {
      nextReadIdx := 0;
      nextWriteIdx := 0;
      queued := [];
    }
  }

  /** FINDING, as written: `len` measures from the write index to the read
      index, so with `count` slots queued it reports `N - count` instead of
      `count` (a buffer of 8 slots holding one item reports 7). */
  lemma {:induction false} LenCountsTheWrongWay(read: nat, count: nat, n: nat)
    requires read < n && count < n
    ensures LenAsWritten(read, (read + count) % n, n) == if count == 0 then 0 else n - count
  {
    ModOnce(read + count, n);
  }

  /** The corrected `len`, `QueuedCount`, is the number of queued slots. */
  lemma {:induction false} QueuedCountIsCount(read: nat, count: nat, n: nat)
    requires read < n && count < n
    ensures QueuedCount(read, (read + count) % n, n) == count
  {
    ModOnce(read + count, n);
  }

  /** On a buffer in any state, the corrected length is the number of
      queued slots; `len` as written agrees with it only when the buffer is
      empty or exactly half full. */
  lemma CorrectedLenOfBuffer(b: RingBuffer)
    requires b.Valid()
    ensures QueuedCount(b.nextReadIdx, b.nextWriteIdx, b.n) == |b.queued|
    ensures b.Len() == |b.queued| <==> |b.queued| == 0 || 2 * |b.queued| == b.n
  {
    QueuedCountIsCount(b.nextReadIdx, |b.queued|, b.n);
    LenCountsTheWrongWay(b.nextReadIdx, |b.queued|, b.n);
  }

  /** FINDING, as written: `next_write` already advances the write index
      past the slot it hands out, and `write_done` compares with offset
      `next_write_idx * N`, so handing that slot to `write_done` fails its
      `assert_eq!` whenever `N > 1` (on a new buffer of 8 slots: slot 0
      against offset 8). */
  method NextWriteThenWriteDone(b: RingBuffer) returns (ok: bool)
    requires b.Valid() && b.n > 1 && |b.queued| < b.n - 1
    modifies b
    ensures !ok
  {
    var s := b.NextWrite();
    ModOnce(s.index + 1, b.n);
    StrideAcceptsOnlySlotZero(s.index, b.nextWriteIdx, b.n);
    ok := b.WriteDone(s.index);
  }

  /** The array stride alone: of the `N` slots, the assertion as written
      accepts only slot 0, and only while the write index is 0. */
  lemma StrideAcceptsOnlySlotZero(item: nat, write: nat, n: nat)
    requires 1 < n && item < n
    ensures item == write * n <==> write == 0 && item == 0
  {
    if write > 0 {
      assert write * n >= n by {
        assert write * n == (write - 1) * n + n;
      }
    }
  }

  /** Corrected `next_write`: it only reserves the slot at the write index
      (or resets when full) and leaves committing it to `write_done`. */
  method ReserveWrite(b: RingBuffer) returns (r: WriteSlot)
    requires b.Valid()
    ensures b.IsFull() ==> r == Resets
    ensures !b.IsFull() ==> r == Slot(b.nextWriteIdx)
  {
    if b.IsFull() {
      return Resets;
    }
    return Slot(b.nextWriteIdx);
  }

  /** With both corrections, reserving a slot and committing it queues
      exactly that slot behind the others and moves the write index on. */
  method ReserveThenCommit(b: RingBuffer) returns (ok: bool)
    requires b.Valid() && |b.queued| < b.n - 1
    modifies b
    ensures b.Valid() && ok
    ensures b.queued == old(b.queued) + [old(b.nextWriteIdx)]
    ensures b.nextWriteIdx == (old(b.nextWriteIdx) + 1) % b.n && b.nextReadIdx == old(b.nextReadIdx)
  {
    var s := ReserveWrite(b);
    ok := b.CorrectedWriteDone(s.index);
  }

  /** Correcting `next_write` alone is not enough: on a new buffer of more
      than one slot, the first reserved slot is accepted by `write_done` as
      written (offset 0 at index 0), but the second, slot 1, is compared
      with offset `N` and the assertion fails. (With two slots the buffer
      is already full after one commit.) */
  method ReserveWithStride(n: nat) returns (first: bool, second: bool)
    requires n > 2
    ensures first && !second
  {
    var b := new RingBuffer(n);
    var s := ReserveWrite(b);
    first := b.WriteDone(s.index);
    ModOnce(1, n);
    assert b.queued == [0] && b.nextWriteIdx == 1;
    s := ReserveWrite(b);
    second := b.WriteDone(s.index);
  }

  /** On a new buffer of more than one slot, the corrected protocol hands
      the committed slot back to the reader, where the one as written
      panics at `write_done`. */
  method ReserveCommitRead(n: nat) returns (asWritten: bool, ok: bool, read: Option<nat>)
    requires n > 1
    ensures !asWritten && ok && read == Some(0)
  {
    var a := new RingBuffer(n);
    asWritten := NextWriteThenWriteDone(a);
    var b := new RingBuffer(n);
    ok := ReserveThenCommit(b);
    read := b.NextRead();
  }

  /** Writing then reading on a new buffer hands back the slot that was
      written, and leaves the buffer empty again. */
  method WriteThenRead(n: nat) returns (written: WriteSlot, read: Option<nat>)
    requires n > 1
    ensures written == Slot(0) && read == Some(0)
  {
    var b := new RingBuffer(n);
    written := b.NextWrite();
    read := b.NextRead();
    assert b.IsEmpty();
  }
}
