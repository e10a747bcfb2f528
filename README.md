# aunisoma-rs firmware core, modelled in Dafny

The aunisoma-rs firmware runs on the boards of a light installation.
A board is a Master, a Panel or a Spy. The Master takes text commands from a
host over USB or a serial line and broadcasts short messages to the Panels.
The Panels answer with their PIR (motion sensor) state, their slot in the
display order and their boot count. This project models the sequential,
byte-oriented logic of that firmware and proves properties of it:

- **Line framing** (`LineFraming`, `LineBreakers`, `UsbLineBreakers`). The two
  `LineBreaker`s split a chunked byte stream into `\n`-terminated lines inside
  a fixed-capacity buffer, dropping over-long lines. One transition function
  is shared by both breakers. Each class states that its fields follow that
  function. The classes differ only in the slice they return.
- **Bounded containers** (`FixedVecs`, `RingBuffers`). `FixedVec` is a vector
  whose capacity is fixed when it is created. `RingBuffer` is a queue of `N`
  slots with read and write indices that wrap modulo `N`.
- **Inter-board messages** (`Protocol`). `Message::parse` and
  `Message::serialize` handle the `[from, tag, payload…]` layer. Payload
  slots are grouped explicitly: three bytes per colour, one byte per id.
- **Master** (`MasterNode`). This covers the 32-entry table of panels that
  answered (`handle_reply`), the command interpreter (`handle_command` up to
  its unfinished parts) and the response buffer `WriteableVec`.
- **Panel** (`PanelNode`). This covers the slot that `MapPanels` assigns and
  the reply each message calls for.
- **Command processor** (`CmdProcessor`, `Text`). This covers the hex parser
  and the `D`/`V`/`L`/`M` commands of src/cmd_processor.rs. `Text` also
  models the library parsers that src/master.rs relies on.
- **Persisted configuration and boot** (`Flash`, `Boot`). `Flash` covers the
  `Data1` option-byte bitfield, its invalid-value fallbacks and the
  option-word read-back rule. `Boot` covers the boot counter, warm-boot
  detection, mode selection and mode toggling.
- **Flash programming** (`FlashHal`). This covers how the flash interrupt
  handler steps a `FlashProcess` through halfword programming. The hardware
  status flags are inputs.

Panics (`assert!`, `unwrap`, `panic!`, `todo!()`, slice indices out of range)
and `sys_reset` are explicit outcomes of the functions that model them.
Rust's checked arithmetic is taken as in a debug build, so an overflow is a
panic outcome.

## Model

| member | source | states |
|---|---|---|
| Base.ModeToRaw | src/main.rs:27-33 | the `#[repr(u8)]` discriminants of `Mode` are 1, 2 and 3 |
| Base.ModeFromRaw | src/main.rs:27-33 | `Mode::try_from` succeeds exactly on 1..3 and inverts `ModeToRaw` |
| FixedVecs.CopiedWithin | src/fixed_vec.rs:24-26 | after `copy_within` the source range sits at `dst`; the length and every other element are unchanged |
| FixedVecs.Resized | src/fixed_vec.rs:15-22 | a resize gives length `new_len`, keeps the first min(old, new) elements and pads with `value` |
| FixedVecs.FixedVec.constructor | src/fixed_vec.rs:7-9 | a new vector is empty and has the given capacity |
| FixedVecs.FixedVec.Len | src/fixed_vec.rs:11-13 | the length is the number of elements and never exceeds the capacity |
| FixedVecs.FixedVec.Deref | src/fixed_vec.rs:42-49 | `deref` exposes exactly the `len` elements |
| FixedVecs.FixedVec.Resize | src/fixed_vec.rs:15-22 | fails, with nothing changed, exactly when `new_len > capacity`; otherwise the contents become `Resized` |
| FixedVecs.FixedVec.CopyWithin | src/fixed_vec.rs:24-26 | the contents become `CopiedWithin`; the capacity is kept |
| FixedVecs.FixedVec.ExtendFromSlice | src/fixed_vec.rs:28-35 | fails, with nothing changed, exactly when `len + src.len() > capacity`; otherwise the contents become old ++ src |
| FixedVecs.FixedVec.Clear | src/fixed_vec.rs:37-39 | the vector becomes empty |
| FixedVecs.CompactionDropsPrefix | src/line_breaker.rs:28-33 | `copy_within(k..len, 0)` then `resize(len - k)` leaves exactly the elements after the first `k`, in order |
| LineFraming.FirstNewline | src/line_breaker.rs:39-42 | the split position is the first `\n` of the chunk, or none |
| LineFraming.Compact | src/line_breaker.rs:28-33 | the first step of every call drops the `used_prefix` bytes and zeroes `used_prefix` |
| LineFraming.Transition | src/line_breaker.rs:27-87 | one `process` call keeps the buffer within capacity, and a completed line lies inside the new buffer |
| LineFraming.Initial | src/line_breaker.rs:12-18 | a new breaker has an empty buffer, `used_prefix = 0` and `discard = false` |
| LineFraming.CompletesExactlyWhenLineFits | src/line_breaker.rs:59-70 | a line completes exactly when the chunk holds `\n`, nothing is being discarded and pending ++ bytes-before-`\n` fits; the line is then those bytes |
| LineFraming.FragmentOverflowExactly | src/line_breaker.rs:46-56 | the "No room for line fragment" assertion fails exactly in discard mode when the bytes after `\n` do not fit |
| LineFraming.TransitionAfterCompaction | src/line_breaker.rs:28-33 | a call depends on the old state only through its compaction |
| LineFraming.EmptyChunkOnlyCompacts | src/line_breaker.rs:35-37 | an empty chunk returns nothing and only removes the returned prefix |
| LineFraming.ChunkWithoutNewline | src/line_breaker.rs:77-86 | a chunk without `\n` is appended if it fits; otherwise the buffer is cleared and `discard` set |
| LineFraming.DiscardEndsAtNewline | src/line_breaker.rs:46-56 | in discard mode, a chunk with `\n` returns nothing, clears `discard` and leaves exactly the bytes after `\n` |
| LineFraming.RemainderKeptOrNextLineDiscarded | src/line_breaker.rs:61-69 | after a completed line, the bytes after `\n` are kept if they fit; otherwise `discard` is set |
| LineFraming.OverlongLineDropped | src/line_breaker.rs:71-76 | a line that does not fit empties the buffer and sets `discard`, with or without its `\n` |
| LineFraming.Feed | src/line_breaker.rs:27-87 | after any run of calls without a panic, the buffer is still within capacity |
| LineFraming.FeedNeedMore | src/line_breaker.rs:27-87 | a call that completes no line adds no line to the feed |
| LineFraming.FeedCompleted | src/line_breaker.rs:27-87 | a call that completes a line puts that line first |
| LineFraming.CompletesWithRoom | src/line_breaker.rs:59-70 | with room, the line is the pending bytes ++ the chunk up to `\n`, and the rest is kept |
| LineFraming.DiscardsThroughNewline | src/line_breaker.rs:46-56 | in discard mode, the buffer after `\n` holds exactly the chunk's tail |
| LineFraming.LineAfterOverlongLine | src/line_breaker.rs:71-76 | after an over-long line whose `\n` comes in a later chunk, the next line comes through exactly and alone |
| LineFraming.OverlongLineSwallowsNext | src/line_breaker.rs:24-25 | an over-long line whose `\n` is in the same chunk still sets `discard` (src/line_breaker.rs:71-76), so the next line is dropped too and no line comes out |
| LineFraming.LineAfterDiscard | src/line_breaker.rs:44-70 | in discard mode, a chunk ending the dropped line and then a chunk holding one whole line yield that line alone |
| LineFraming.WholeLineFed | src/line_breaker.rs:58-65 | from an empty buffer, one chunk holding one whole line yields exactly that line |
| LineFraming.CompletedLineConservesBytes | src/line_breaker.rs:59-70 | with room, line ++ `\n` ++ what stays pending equals pending ++ chunk |
| LineFraming.BufferedNewlineSwallowed | src/line_breaker.rs:39-44 | as written, "AB\nCD\n" then "EF\n" completes the lines "AB" and then "CD\nEF" (src/usb.rs returns these; src/line_breaker.rs returns them short of the last byte, "A" and "CD\nE") |
| LineFraming.CorrectedTransition | src/line_breaker.rs:27-87 | the corrected call keeps the buffer within capacity; a pending `\n` is honoured first |
| LineFraming.CorrectedLineHasNoNewline | src/line_breaker.rs:59-70 | no line returned by the corrected framer holds a `\n` |
| LineFraming.CorrectedBufferedStep | src/line_breaker.rs:59-70 | with a `\n` pending, the corrected call returns the line before it and queues the chunk when it fits |
| LineFraming.CorrectedBufferedLine | src/line_breaker.rs:59-70 | that line, its `\n` and what stays pending spell the pending bytes ++ chunk |
| LineFraming.CorrectedFallsBack | src/line_breaker.rs:27-87 | without a pending `\n` the corrected call is the call as written |
| LineFraming.CorrectedConservesBytes | src/line_breaker.rs:59-70 | the corrected call loses no byte when nothing overflows |
| LineFraming.CorrectedFeed | src/line_breaker.rs:27-87 | after any run of corrected calls, the buffer is still within capacity |
| LineFraming.CorrectedFeedNeedMore | src/line_breaker.rs:27-87 | a corrected call without a line adds none |
| LineFraming.CorrectedFeedCompleted | src/line_breaker.rs:27-87 | a corrected call with a line puts it first |
| LineFraming.CorrectedLinesFollowStream | src/line_breaker.rs:27-87 | however the stream is chunked, as long as each call has room for what is pending and its chunk, the corrected lines, each followed by `\n`, then the pending bytes, spell the whole stream; no line holds `\n` |
| LineFraming.StreamThatFitsLeavesRoom | src/line_breaker.rs:59-70 | a stream that fits in the buffer as a whole leaves room at every corrected call |
| LineBreakers.Outcome | src/line_breaker.rs:64-70 | a line is returned exactly when one completes non-empty, and it is the completed bytes short of the last one |
| LineBreakers.LineBreaker.State | src/line_breaker.rs:5-9 | the fields read as a framer state satisfy the framer invariant |
| LineBreakers.LineBreaker.constructor | src/line_breaker.rs:12-18 | a new breaker is in the initial framer state with the given capacity |
| LineBreakers.LineBreaker.Process | src/line_breaker.rs:27-87 | on every path that does not panic, the fields become the framer's next state and the result is `Outcome` of that step |
| LineBreakers.LineBreaker.ProcessNewline | src/line_breaker.rs:44-76 | a chunk holding a newline moves the fields to the framer's next state, with or without discarding |
| LineBreakers.LineBreaker.EndDiscard | src/line_breaker.rs:44-56 | a newline in discard mode leaves only the bytes after it buffered and stops discarding, or fails the fragment assertion |
| LineBreakers.LineBreaker.CutLine | src/line_breaker.rs:58-76 | a newline outside discard mode returns the finished line when it fits and keeps what follows when that fits too, as the framer step says |
| LineBreakers.LineBreaker.ProcessFragment | src/line_breaker.rs:77-86 | a chunk without a newline is appended when it fits, else the buffer is emptied and discarding starts, as the framer step says |
| LineBreakers.LineBreaker.DropReturnedPrefix | src/line_breaker.rs:28-33 | the compaction leaves the state `Compact(old)` |
| LineBreakers.LineBreaker.Reset | src/line_breaker.rs:89-93 | `reset` returns to the initial state |
| LineBreakers.ReturnedLineLacksLastByte | src/line_breaker.rs:64-70 | a returned line is the pending bytes ++ the chunk up to `\n`, short of one byte |
| LineBreakers.EmptyLinePanics | src/line_breaker.rs:64-64 | the chunk "\n" on a new breaker makes `line_len - 1` underflow |
| LineBreakers.CrLfLineLosesCr | src/line_breaker.rs:64-70 | "AB\r\n" yields "AB" |
| UsbLineBreakers.Outcome | src/usb.rs:223-234 | a line is returned exactly when one completes; the assertion fails exactly on fragment overflow |
| UsbLineBreakers.LineBreaker.State | src/usb.rs:164-168 | the fields read as a framer state satisfy the framer invariant |
| UsbLineBreakers.LineBreaker.constructor | src/usb.rs:171-177 | a new breaker has an empty buffer, `used_prefix = 0` and `discard = false` |
| UsbLineBreakers.LineBreaker.Extend | src/usb.rs:242-249 | `extend_from_slice` appends everything or fails with nothing changed |
| UsbLineBreakers.LineBreaker.DropReturnedPrefix | src/usb.rs:192-197 | the compaction leaves the state `Compact(old)` |
| UsbLineBreakers.LineBreaker.Process | src/usb.rs:185-251 | on every path that does not panic, the fields become the framer's next state and the result is `Outcome` of that step |
| UsbLineBreakers.ReturnedLineIsWholeLine | src/usb.rs:223-234 | a returned line is exactly pending ++ chunk-before-`\n`: no byte dropped |
| UsbLineBreakers.BreakersAgreeUpToLastByte | src/usb.rs:223-234 | both breakers return a line on the same calls; the FixedVec one returns it short of its last byte |
| RingBuffers.LenAsWritten | src/ring_buffer.rs:84-90 | `len` as written is below `N` and is 0 exactly when read == write |
| RingBuffers.QueuedCount | src/ring_buffer.rs:84-90 | the corrected count is below `N` and is 0 exactly when read == write |
| RingBuffers.RingBuffer.constructor | src/ring_buffer.rs:19-25 | a new buffer has both indices 0 and nothing queued |
| RingBuffers.RingBuffer.IsEmpty | src/ring_buffer.rs:76-78 | `read == write` holds exactly when nothing is queued |
| RingBuffers.RingBuffer.IsFull | src/ring_buffer.rs:80-82 | `read == (write + 1) % N` holds exactly when `N - 1` slots are queued |
| RingBuffers.RingBuffer.Len | src/ring_buffer.rs:84-90 | `len` is below `N` and is 0 exactly when empty |
| RingBuffers.RingBuffer.NextRead | src/ring_buffer.rs:27-35 | empty: `None`, nothing changed; else the oldest slot (the one at `read`), with `read` advanced mod `N` and `write` unchanged |
| RingBuffers.RingBuffer.NextWrite | src/ring_buffer.rs:47-66 | not full: the slot at `write`, which joins the queue, with `write` advanced mod `N`; full: a reset |
| RingBuffers.RingBuffer.WriteDone | src/ring_buffer.rs:68-74 | as written, the assertion holds exactly when `item` is element offset `write × N`, because `as_ptr()` of the `[T; N]` buffer strides whole arrays; the commit then follows `Committed` |
| RingBuffers.RingBuffer.CorrectedWriteDone | src/ring_buffer.rs:68-74 | corrected (`as *const T` before `add`): the assertion holds exactly when `item` is the slot at `write`, which is then committed |
| RingBuffers.RingBuffer.Commit | src/ring_buffer.rs:73-73 | the advance of `write_done` queues the slot at `write` and moves `write` on mod `N`; on a full buffer the indices meet and nothing is queued |
| RingBuffers.RingBuffer.AdvanceWrite | src/ring_buffer.rs:64-73 | the `(next_write_idx + 1) % N` step shared by `next_write` and `write_done`: with a free slot, the slot at `write` joins the queue and `write` moves on mod `N`, `read` unchanged |
| RingBuffers.RingBuffer.Flush | src/ring_buffer.rs:92-95 | both indices become 0 and nothing is queued |
| RingBuffers.LenCountsTheWrongWay | src/ring_buffer.rs:84-90 | as written, `len` with `count` slots queued is `N - count` (0 when empty) |
| RingBuffers.QueuedCountIsCount | src/ring_buffer.rs:84-90 | the corrected count is the number queued |
| RingBuffers.CorrectedLenOfBuffer | src/ring_buffer.rs:84-90 | on any buffer the corrected count is the number queued; `len` agrees only when empty or exactly half full |
| RingBuffers.NextWriteThenWriteDone | src/ring_buffer.rs:47-74 | as written, `write_done` on the slot `next_write` just returned fails its assertion whenever `N > 1` |
| RingBuffers.StrideAcceptsOnlySlotZero | src/ring_buffer.rs:68-72 | for `N > 1`, a slot passes the strided comparison exactly when it is slot 0 and `write` is 0 |
| RingBuffers.ReserveWithStride | src/ring_buffer.rs:47-74 | even with `next_write` reserving, for `N > 2` the strided `write_done` accepts the first slot and rejects the second |
| RingBuffers.ReserveWrite | src/ring_buffer.rs:47-66 | the corrected `next_write` hands out the slot at `write` without moving it, and resets when full |
| RingBuffers.ReserveThenCommit | src/ring_buffer.rs:68-74 | reserving and then committing with `write_done` queues exactly the reserved slot behind the others |
| RingBuffers.ReserveCommitRead | src/ring_buffer.rs:27-74 | on a new buffer the corrected protocol hands slot 0 to the reader, where the one as written panics |
| RingBuffers.WriteThenRead | src/ring_buffer.rs:27-66 | `next_write` then `next_read` on a new buffer gives back slot 0 |
| Protocol.GroupRgb | src/master.rs:64-72 | a `C` payload gives ⌊len/3⌋ colours, the k-th from bytes 3k..3k+2 |
| Protocol.FlattenRgb | src/master.rs:138-147 | the colour slots are serialised as their r, g, b bytes in order |
| Protocol.GroupFlattenRoundTrip | src/master.rs:64-72 | grouping the flattened slots gives them back |
| Protocol.Parse | src/master.rs:54-118 | under 2 bytes gives `None`; a parsed message carries `from = data[0]` and the tag `data[1]` |
| Protocol.Serialize | src/master.rs:120-176 | succeeds exactly when 2 + payload ≤ `MAX_PAYLOAD_SIZE` (64), and then starts `[from, tag]` |
| Protocol.ParseRejectsUnknownTags | src/master.rs:114-114 | a tag outside C, M, P, R, S, _, c, m, I is rejected |
| Protocol.ParseMinimumPayloads | src/master.rs:84-113 | `S`, `c`, `m` parse exactly with ≥ 1 payload byte and `I` with ≥ 2; `_` alone is a test of size 0 |
| Protocol.ParseSetColorsIgnoresTrailingBytes | src/master.rs:64-72 | a `C` payload of whole colours followed by 1 or 2 bytes parses to those colours |
| Protocol.ParseSerializeRoundTrip | src/master.rs:54-176 | whenever `serialize(m, a)` succeeds, `parse` of it is `(a, m)` |
| Protocol.SerializeParsePrefix | src/panel.rs:55-177 | a parsed message of ≤ 64 bytes re-serialises to a prefix of its bytes, except that `_` alone gains its size byte 0 |
| Text.DigitValue | src/cmd_processor.rs:177-182 | a hex digit's value is below 16, and below 10 exactly for a decimal digit |
| Text.ParseHexByte | src/cmd_processor.rs:172-191 | `None` exactly for fewer than 2 bytes or a non-hex first or second byte; else high digit × 16 + low digit |
| Text.ParseHexByteInvertsUpper | src/cmd_processor.rs:172-191 | the upper-case hex of any byte, with anything after it, parses back to that byte |
| Text.ParseHexByteInvertsLower | src/cmd_processor.rs:172-191 | the same for lower-case hex |
| Text.ParseHexByteIgnoresCase | src/cmd_processor.rs:177-189 | lower-casing the input does not change the result |
| Text.FromStrRadix16 | src/master.rs:331-335 | `u8::from_str_radix(pair, 16)` accepts exactly two hex digits, or `+` and one hex digit |
| Text.FromStrRadixInvertsUpper | src/master.rs:331-335 | the library parser reads back two-digit upper-case hex |
| Text.FromStrRadixAgreesWithParseHexByte | src/master.rs:331-335 | it agrees with `parse_hex_byte` except on `+` and a digit, which only it accepts |
| Text.ParseU8 | src/master.rs:459-459 | what `str::parse::<u8>` accepts holds, apart from a leading `+`, only decimal digits, and ends in one |
| Text.ParseU8InvertsDecimal | src/master.rs:459-459 | the decimal text of any byte, with or without `+`, parses back to it |
| Text.ParseU8RejectsOverflow | src/master.rs:459-459 | "256" does not parse, so the test size falls back to 0 |
| Text.ValidUtf8 | src/master.rs:459-459 | `core::str::from_utf8` acceptance of well-formed UTF-8 sequences; stated by `AsciiIsUtf8` |
| Text.AsciiIsUtf8 | src/master.rs:331-335 | ASCII arguments always pass `from_utf8`; a lone continuation byte does not |
| CmdProcessor.DecodedPairs | src/cmd_processor.rs:244-251 | the decoded bytes are one per hex pair, in argument order |
| CmdProcessor.HexOfDecodes | src/cmd_processor.rs:244-251 | hex arguments decode back to the bytes they encode |
| CmdProcessor.CommandFromByte | src/cmd_processor.rs:44-53 | `Command::try_from` accepts exactly D, V, E, L, M, R |
| CmdProcessor.DefaultModeOutcome | src/cmd_processor.rs:194-209 | `handle_default_mode`; stated by `DefaultModeExactlyOneLetter` |
| CmdProcessor.VersionOutcome | src/cmd_processor.rs:211-215 | `handle_version`; stated by `VersionIgnoresArguments` |
| CmdProcessor.SetColorOutcome | src/cmd_processor.rs:225-256 | `handle_set_color`; stated by `SetColorRejections`, `SetColorSendsPacket` and `SetColorPanicsAtThirtyTwo` |
| CmdProcessor.MapPanelsOutcome | src/cmd_processor.rs:265-289 | `handle_map_panels`; stated by `MapPanelsDecodesIds` and `MapPanelsExample` |
| CmdProcessor.CommandOutcome | src/cmd_processor.rs:140-167 | `handle_command`'s dispatch; stated by `UnknownCommands`, `DefaultModeDispatch` and `SetColorDispatch` |
| CmdProcessor.HandleSetColor | src/cmd_processor.rs:225-256 | the `step_by(2)` loop ends exactly as `SetColorOutcome` says |
| CmdProcessor.HandleMapPanels | src/cmd_processor.rs:265-289 | the id loop ends exactly as `MapPanelsOutcome` says |
| CmdProcessor.HandleCommand | src/cmd_processor.rs:140-167 | dispatch ends exactly as `CommandOutcome` says |
| CmdProcessor.DefaultModeDispatch | src/cmd_processor.rs:150-160 | a line starting with `D` is answered by `handle_default_mode` on the rest of the line |
| CmdProcessor.SetColorDispatch | src/cmd_processor.rs:150-163 | a line starting with `L` is answered by `handle_set_color` on the rest of the line |
| CmdProcessor.ParseHexByteExamples | src/cmd_processor.rs:172-191 | "ff" is 255; "fg" and "f" are rejected |
| CmdProcessor.UnknownCommands | src/cmd_processor.rs:146-155 | an empty line gets an empty reply and an unknown first byte gets "?" |
| CmdProcessor.DefaultModeExactlyOneLetter | src/cmd_processor.rs:194-209 | `D` persists and restarts exactly for one argument M, P or S; else it replies "ERROR Expected M, P, or S" |
| CmdProcessor.VersionIgnoresArguments | src/cmd_processor.rs:211-215 | `V` answers exactly the version bytes whatever the arguments, so two calls agree |
| CmdProcessor.SetColorRejections | src/cmd_processor.rs:231-248 | `L` answers "?" for a length that is not a multiple of 6, for more than 32 colours and for any invalid hex pair |
| CmdProcessor.SetColorSendsPacket | src/cmd_processor.rs:240-253 | for 1 to 31 colours the packet is `L` followed by the decoded bytes in order |
| CmdProcessor.SetColorPanicsAtThirtyTwo | src/cmd_processor.rs:240-251 | as written, 32 well-formed colours make `push().unwrap()` panic |
| CmdProcessor.CorrectedSetColorOutcome | src/cmd_processor.rs:225-256 | `handle_set_color` with a packet of `1 + 32 * 3` bytes; stated by `CorrectedSetColorNeverPanics` and `CorrectedSetColorSendsThirtyTwo` |
| CmdProcessor.CorrectedSetColorNeverPanics | src/cmd_processor.rs:231-251 | with room for the tag byte, every argument string is answered "?" or sent whole |
| CmdProcessor.CorrectedSetColorSendsThirtyTwo | src/cmd_processor.rs:240-251 | with room for the tag byte, 32 colours are sent |
| CmdProcessor.MapPanelsDecodesIds | src/cmd_processor.rs:271-288 | `M` answers nothing for odd length, > 64 digits or bad hex; otherwise it decodes one id per pair, in order, and reaches the `todo!()` |
| CmdProcessor.MapPanelsExample | src/cmd_processor.rs:271-288 | "M04080A" decodes the ids 4, 8, 10 |
| MasterNode.AsI8 | src/master.rs:224-224 | `rssi as i8` is the two's-complement reading of the byte |
| MasterNode.FindPanel | src/master.rs:221-221 | `iter_mut().find` gives the first entry with that id, or none when no entry has it |
| MasterNode.ReplyPreservesTableInv | src/master.rs:213-252 | every reply keeps the ids unique and the table within 32 entries |
| MasterNode.EnumerateUpserts | src/master.rs:220-237 | `Enumerate` updates the sender's entry (keeping `pirs` and `slot`), or appends one with `pirs = 0` and `slot = 0` while fewer than 32 exist |
| MasterNode.ReplyTouchesOnlySender | src/master.rs:213-252 | a reply changes only its sender's entry, never removes one, and only `Enumerate` adds one |
| MasterNode.RepliesThatChangeNothing | src/master.rs:238-251 | `SetColorReply` with `pirs = 0`, updates from unknown senders and request kinds leave the table unchanged |
| MasterNode.UpdateRepliesSetOneField | src/master.rs:238-249 | `SetColorReply` with PIRs and `MapPanelReply` set exactly the known sender's `pirs` or `slot` |
| MasterNode.Broadcast | src/master.rs:194-198 | `broadcast` sends exactly one message, the serialised bytes, when the message serialises, and nothing otherwise |
| MasterNode.DecodeAllColors | src/master.rs:328-338 | the decode succeeds exactly when every six-digit group parses; then colour `k` is the `k`-th group's, one per group |
| MasterNode.AllColoursSplit | src/master.rs:330-338 | all groups parse exactly when the first does and all after it do |
| MasterNode.KeepSlots | src/master.rs:336-336 | `push(..).ok()` keeps a prefix of the colours of length exactly min(n, 32) |
| MasterNode.DecodeHexColors | src/master.rs:328-338 | colours sent as upper-case hex decode back |
| MasterNode.CommandRunFor | src/master.rs:254-274 | every command that returns ends its response with "\r\n" |
| MasterNode.UnknownCommandsAnsweredQuestion | src/master.rs:255-270 | an empty or unknown command is answered "?\r\n" |
| MasterNode.DefaultModeAcceptsOnlyMasterOrPanel | src/master.rs:276-287 | `D` persists and restarts exactly for first byte M or P; otherwise "?\r\n" |
| MasterNode.SetColorsRejectsBadLength | src/master.rs:324-326 | `L` with a length that is not a multiple of 6 gets "?\r\n" |
| MasterNode.SetColorsBroadcastsAtMostTwenty | src/master.rs:322-344 | well-formed `L` broadcasts the colours when at most 20, nothing otherwise, then reaches its `todo!()` |
| MasterNode.HexColorsRun | src/master.rs:322-344 | `set_colors` on hex colours writes nothing, broadcasts the first 32 colours when they fit in one message, and stops at the `todo!()`; the table is cleared as `Master.HandleCommand` states |
| MasterNode.DispatchesToSetColors | src/master.rs:262-262 | `L` runs `set_colors` on the rest of the line |
| MasterNode.SetColorsFitsUpToTwenty | src/master.rs:341-341 | a set-colours message fits in 64 bytes exactly for ≤ 20 colours |
| MasterNode.VersionIgnoresArguments | src/master.rs:265-268 | `V` answers the version and "\r\n" whatever follows |
| MasterNode.TestMessageBroadcastsSize | src/master.rs:454-463 | `_` with a decimal byte broadcasts a test of that size, alone of size 0; it answers "OK\r\n" |
| MasterNode.WriteableVec.constructor | src/master.rs:470-470 | a new response buffer is empty |
| MasterNode.WriteableVec.Write | src/master.rs:481-487 | `write` appends all of `buf` and reports its length, or fails with nothing written |
| MasterNode.WritesAppendWhenRoom | src/master.rs:481-487 | with room, a series of `write_all`s appends their concatenation and none fails |
| MasterNode.WritesKeepPrefix | src/master.rs:481-487 | the response only grows by whole writes and stays within capacity |
| MasterNode.AfterReply | src/master.rs:213-252 | the table after one reply; its properties are `ReplyPreservesTableInv`, `EnumerateUpserts`, `ReplyTouchesOnlySender`, `RepliesThatChangeNothing` and `UpdateRepliesSetOneField` |
| MasterNode.SetColorsRun | src/master.rs:322-345 | `set_colors`: "?" for a bad length, a panic on a bad pair, else one broadcast of the kept colours and the `todo!()`; stated by `SetColorsRejectsBadLength`, `SetColorsBroadcastsAtMostTwenty` and `HexColorsRun` |
| MasterNode.SetDefaultModeRun | src/master.rs:276-287 | `set_default_mode`; stated by `DefaultModeAcceptsOnlyMasterOrPanel` |
| MasterNode.TestMessageRun | src/master.rs:454-463 | the `_` command; stated by `TestMessageBroadcastsSize` |
| MasterNode.Interrupted | src/master.rs:283-284 | a write that does not fit ends the command in a panic; for `D`, whose mode is persisted before "OK" is written, the panic carries that mode |
| MasterNode.DefaultModePersistedBeforeOk | src/master.rs:283-284 | `D` with `M` or `P` and fewer than 2 bytes free: the write fails and the ending is a panic after persisting that mode |
| MasterNode.ColourAt | src/master.rs:331-335 | the three `u8::from_str_radix(.., 16)` calls for colour `k`: `None` when one of them fails; its properties are carried by `DecodeAllColors` and `DecodeHexColors` |
| MasterNode.AfterWrites | src/master.rs:481-487 | the chain of `write_all(..).unwrap()` on the response: the writes before the first that does not fit, and whether all fitted; stated by `WritesAppendWhenRoom` and `WritesKeepPrefix` |
| MasterNode.Master.constructor | src/master.rs:186-192 | a new Master has an empty panel table |
| MasterNode.Master.Find | src/master.rs:221-221 | the scan returns `FindPanel` |
| MasterNode.Master.HandleReply | src/master.rs:213-252 | the table becomes `AfterReply` of the old table |
| MasterNode.Master.HandleCommand | src/master.rs:254-274 | the response receives the command's writes, stopping at the first that does not fit, and the end is as `CommandRunFor` says, or `Interrupted` when a write does not fit; the panel table is emptied exactly by `E` and by an `L` whose colours all decode (src/master.rs:291, 340), and is otherwise unchanged |
| MasterNode.FirstMatchIsFound | src/master.rs:221-221 | the first entry with the id is the one found |
| PanelNode.GetPirs | src/panel.rs:197-199 | bit 0 is PIR1 and bit 1 is PIR2, the result is below 4, and 0 exactly when neither is active |
| PanelNode.FirstIndexOf | src/panel.rs:222-227 | the first index holding the address, or none when it is absent |
| PanelNode.AsU8 | src/panel.rs:224-225 | `i as u8` is `i` below 256 |
| PanelNode.Panel.constructor | src/panel.rs:188-195 | a new Panel is unmapped |
| PanelNode.Panel.HandleMessage | src/panel.rs:201-247 | the slot becomes `NextSlot` and the reply is `Response`, from the slot held before |
| PanelNode.NextSlot | src/panel.rs:221-228 | the slot after a message; stated by `MapPanelsTakesFirstOccurrence`, `MapPanelsWithoutMeUnmaps`, `MappedIffListed` and `OnlyMapPanelsChangesSlot` |
| PanelNode.Response | src/panel.rs:206-247 | the reply to a message; stated by `SetColorsReplyExactly`, `PingAlwaysAnswered` and `OnlyMapPanelsChangesSlot` |
| PanelNode.FirstMatchIsFirstIndex | src/panel.rs:222-226 | the scan stops at the first occurrence |
| PanelNode.MapPanelsTakesFirstOccurrence | src/panel.rs:221-227 | the first occurrence `i` of the own address maps the slot to `i` and replies `MapPanelReply(i)` |
| PanelNode.MapPanelsWithoutMeUnmaps | src/panel.rs:228-228 | `MapPanels` without the own address unmaps and replies nothing |
| PanelNode.MappedIffListed | src/panel.rs:221-228 | after `MapPanels` the board is mapped exactly when its address is listed, at its slot |
| PanelNode.SetColorsReplyExactly | src/panel.rs:207-220 | `SetColors` gets `SetColorReply{pirs}` exactly when mapped, the slot is present and `pirs ≠ 0` |
| PanelNode.PingAlwaysAnswered | src/panel.rs:230-235 | `Ping` always gets `Enumerate{boot_count, rssi: 0}` and keeps the slot |
| PanelNode.OnlyMapPanelsChangesSlot | src/panel.rs:206-247 | only `MapPanels` changes the slot; `SetStatus`, `Test` and the reply kinds get no reply |
| PanelNode.SlotOneScenario | src/panel.rs:207-228 | address 8 with `MapPanels [4, 8, 10]` takes slot 1, and its colour is bytes 3..5 of the next `SetColors` |
| Flash.CommModeToRaw | src/flash.rs:66-68 | the raw comm modes are 1 and 2 |
| Flash.CommModeFromRaw | src/flash.rs:60-64 | `CommMode::try_from` accepts exactly 1..2 and inverts `CommModeToRaw` |
| Flash.DefaultModeField | src/flash.rs:77-77 | `default_mode` is bits 0-1, below 4 |
| Flash.CommModeField | src/flash.rs:78-78 | `comm_mode` is bits 2-3, below 4 |
| Flash.WithDefaultMode | src/flash.rs:77-77 | setting bits 0-1 to `m ≤ 3` reads back `m`, keeps `comm_mode` and every other bit |
| Flash.WithCommMode | src/flash.rs:78-78 | setting bits 2-3 to `m ≤ 3` reads back `m`, keeps `default_mode` and every other bit |
| Flash.DefaultModeOf | src/flash.rs:50-54 | a valid field decodes to its mode; raw 0 falls back to Panel |
| Flash.CommModeOf | src/flash.rs:60-64 | a valid field decodes to its comm mode; an invalid one falls back to Radio |
| Flash.Sanitized | src/flash.rs:119-127 | both fields end valid, valid ones unchanged, an invalid default mode becomes Panel and an invalid comm mode Radio |
| Flash.DefaultModeRoundTrip | src/flash.rs:56-58 | persisting a mode reads back that mode and keeps the comm mode |
| Flash.CommModeRoundTrip | src/flash.rs:66-68 | persisting a comm mode reads it back and keeps the default mode |
| Flash.ExpectedOptionWord | src/flash.rs:239-239 | for a byte value, the expected high byte is its complement and the low byte the value |
| Flash.OptionWordWritten | src/flash.rs:239-243 | an accepted read-back always holds the value's low byte; for a byte value it is accepted exactly when its high byte is the complement |
| Flash.UserBytes.Get | src/flash.rs:115-132 | `get` keeps the id as read and sanitises `data1` |
| Flash.UserBytes.InitUserConfiguration | src/flash.rs:36-44 | a warm boot keeps the cached bytes; a cold boot reloads them through `get` |
| Flash.UserBytes.GetId | src/flash.rs:134-136 | `get_id` is the stored id |
| Flash.UserBytes.Write | src/flash.rs:165-173 | `write` persists the unchanged id and the packed `data1` |
| Flash.UserBytes.SetDefaultMode | src/flash.rs:145-151 | panics, with nothing changed, exactly above 3; otherwise stores the field and writes; the id never changes |
| Flash.UserBytes.SetCommMode | src/flash.rs:157-163 | the same for the comm mode |
| Flash.SetDefaultModeFromEnum | src/flash.rs:56-58 | persisting a `Mode` never panics; `get_default_mode` then returns it, with comm mode and id kept |
| Flash.SetCommModeFromEnum | src/flash.rs:66-68 | persisting a `CommMode` never panics; `get_comm_mode` then returns it, with default mode and id kept |
| Boot.NextBootCount | src/boot.rs:18-22 | the count moves on by one, wrapping 255 to 1, and is never 0 |
| Boot.CheckedBoot | src/boot.rs:15-34 | the statics after `check_boot_status`; stated by `WarmExactlyWhenMagicSurvived` and `CountsBoots` |
| Boot.AfterReset | src/boot.rs:6-13 | what a reset keeps; stated by `RebootIsWarm` |
| Boot.WarmExactlyWhenMagicSurvived | src/boot.rs:25-31 | a boot is warm exactly when the magic was present; afterwards it always is |
| Boot.RebootIsWarm | src/boot.rs:25-31 | a second `check_boot_status` after a reset reports a warm boot |
| Boot.CountsBoots | src/boot.rs:15-34 | from count 0, `k` boots (0 < k < 256) give count `k` |
| Boot.BootState.constructor | src/boot.rs:6-13 | at power-up `IS_WARM_BOOT` is false and the `.noinit` statics hold whatever they held |
| Boot.BootState.CheckBootStatus | src/boot.rs:15-34 | the statics become `CheckedBoot` of the old ones |
| Boot.BootState.Reset | src/boot.rs:6-13 | a reset clears `IS_WARM_BOOT` and keeps the `.noinit` statics |
| Boot.BootState.IsWarmBoot | src/boot.rs:36-39 | `is_warm_boot` reads the flag |
| Boot.BootState.GetBootCount | src/boot.rs:41-44 | `get_boot_count` reads the count |
| Boot.DetermineMode | src/boot.rs:53-74 | address 0 is Spy; any other address takes the flash default mode |
| Boot.ToggleSwapsMasterAndPanel | src/boot.rs:79-83 | toggling swaps Master and Panel, keeps Spy, and undoes itself |
| Boot.ToggledMode | src/boot.rs:79-83 | the mode after a toggle; stated by `ToggleSwapsMasterAndPanel` |
| Boot.ToggleMode | src/boot.rs:78-101 | the toggled mode is persisted, the comm mode and id kept, and the board reset |
| Boot.BootSequence | src/main.rs:50-62 | a cold boot reloads the option bytes and a warm one keeps the cache; the mode is `determine_mode` of the id |
| Boot.ToggleThenReboot | src/main.rs:50-65 | a board that toggles and reboots comes up warm in the toggled mode |
| FlashHal.HalfwordCount | src/flash_hal.rs:412-416 | HalfWord, Word and DoubleWord write 1, 2 and 4 halfwords |
| FlashHal.EndOffset | src/flash_hal.rs:175-182 | the end-address offset is 0, 2 or 6, that is 2 × (halfwords − 1) |
| FlashHal.InitialProcess | src/flash_hal.rs:404-418 | `program_it` sets the procedure by type, `data_remaining` to 1, 2 or 4 and no error |
| FlashHal.InitialProcessInv | src/flash_hal.rs:404-418 | the new process and the idle one satisfy the programming invariant |
| FlashHal.Aborted | src/flash_hal.rs:96-115 | the process after an error flag; stated by `ErrorAborts` |
| FlashHal.EndOfOperation | src/flash_hal.rs:130-206 | the end-of-operation branch; stated by `EopOutsideProgramming`, `ProgrammingRunsToEnd` and `IrqKeepsInv` |
| FlashHal.IrqStep | src/flash_hal.rs:83-230 | one interrupt: the error branch, then the end-of-operation branch, then the interrupts off when idle; stated by `IrqKeepsInv`, `ErrorAborts` and `ProgrammingRunsToEnd` |
| FlashHal.IrqKeepsInv | src/flash_hal.rs:83-230 | every interrupt keeps the invariant; it panics only when the address passes the top of the 32-bit range, never on the decrement or the start-address subtraction |
| FlashHal.ErrorAborts | src/flash_hal.rs:96-122 | an error flag aborts: address 0xFFFFFFFF, WriteProtection or Programming, procedure None, error callback at the old address, interrupts off |
| FlashHal.EopOutsideProgramming | src/flash_hal.rs:194-206 | end-of-operation without a programming procedure only sets the procedure to None |
| FlashHal.ProgrammingRunsToEnd | src/flash_hal.rs:130-192 | the remaining interrupts program the following halfwords in order, then end with address 0xFFFFFFFF and report the start address |
| FlashHal.ProgramItWritesAllHalfwords | src/flash_hal.rs:402-445 | the process `program_it` builds, once stored (as `ProgramItStoring` does, not `program_it` as written), has its interrupts write the data as 1, 2 or 4 halfwords from `address`, low first, and report `address` |
| FlashHal.WordHalves | src/flash_hal.rs:155-174 | a word goes to `address` and `address + 2` as its low and high halves |
| FlashHal.FlashController.constructor | src/flash_hal.rs:54-60 | the shared process starts idle |
| FlashHal.FlashController.ProgramIt | src/flash_hal.rs:402-445 | as written: builds the process in a local, enables the interrupts, programs the low halfword, and leaves the shared process unchanged |
| FlashHal.FlashController.ProgramItStoring | src/flash_hal.rs:402-445 | corrected: the shared process becomes the new process |
| FlashHal.FlashController.IrqHandler | src/flash_hal.rs:83-230 | the shared process steps as `IrqStep`; a programmed halfword is recorded; the interrupts go off when the procedure ends |
| FlashHal.WordWriteAsWritten | src/flash_hal.rs:402-445 | as written, a word write programs only its low halfword and the next interrupt finds the process idle |
| FlashHal.WordWriteCorrected | src/flash_hal.rs:402-445 | with the process stored, a word write programs both halfwords and reports its start address |

## Left out

- Transport and I/O are not part of this model. This covers the USB CDC and
  UART tasks, `PanelComm`/`Comm` and `send_command`. A packet handed to them
  is the end of a model run (`Sends`, or a list of broadcasts).
- Async coordination and hardware are not part of this model: `select3`,
  signals, `Timer` delays, GPIO, LEDs, status LEDs, the watchdog and the
  logger. The PIR pins, the option-byte registers, the flash status flags
  and `get_boot_count()` are parameters.
- The `todo!()` bodies are an `Unfinished` or `Panics` outcome, never given
  behaviour: `enumerate`, the end of `set_colors`, `map_panels`, `reset_all`
  and `await_replies` in src/master.rs, and `handle_enumerate`, the end of
  `handle_map_panels`, `handle_reset` and `run_spy` in src/cmd_processor.rs.
- `RingBuffer` element storage is not modelled. A slot reference is its
  index, so what the caller writes through it is left out.
- `RingBuffer::next_read_with_timeout` is left out, because it depends on a
  clock.
- RingBuffers.RingBuffer.NextWrite: a full buffer is a reset outcome. The
  model does not capture the one-second wait in thread mode, because nothing
  else can empty the buffer in a sequential model.
- `with_cached_user_bytes` (the atomic lock) and the flash-HAL critical
  sections and callback registration are left out: the model is
  single-threaded.
- The callbacks appear only as the addresses handed to them.
- Flash register handling is left out: `unlock`, `lock`, `ob_unlock`,
  `ob_erase`, `wait_for_flash_idle`, `wait_for_last_operation` and the
  register writes of `program_halfword`. A programmed halfword is recorded
  as an `(address, value)` pair. The write-option-word rule is modelled on
  the read-back value.
- Flash.CommModeToRaw: the `CommMode` enum of src/comm.rs is not part of
  this model. Its discriminants are taken to be Radio = 1 and Serial = 2.
- `version::VERSION` is not part of this model. It is a parameter.
- MasterNode.CommandRunFor: `set_default_mode` logs
  `from_utf8(args).unwrap()`. The model treats that log line as compiled
  out, so a non-UTF-8 `D` argument does not panic here.
- MasterNode.Master.HandleCommand: `Master::run` reuses one 256-byte
  response buffer without clearing it. The model covers one command on a
  given buffer, not that loop.
- Integer widths: `usize` is unbounded here. `u8`, `u16`, `u32` and `u64`
  values are subset types, and every wrap-around the source relies on
  (`wrapping_add`, `as u8`, `as i8`, `as u16`) is written out.
- LineFraming.CorrectedLinesFollowStream: it requires `RoomEachCall`, that
  at every call what is pending plus the chunk fits in the buffer. A call
  without that room drops the pending rest and discards, and the per-call
  lemmas cover that case instead. `StreamThatFitsLeavesRoom` shows that a
  stream fitting the buffer as a whole meets the condition.
- The command table at src/cmd_processor.rs:22 lists `S` (Spy) as a mode
  for the `D` command. src/cmd_processor.rs accepts it, but src/master.rs
  does not; each module follows its own file.

## Findings

| source | as written | input that shows it | evidently intended | confidence | as-written member | corrected member |
|---|---|---|---|---|---|---|
| src/line_breaker.rs:39-44 | only the new chunk is searched for `\n`; bytes kept after a first `\n` are never rescanned (src/usb.rs:203-208 does the same) | chunks "AB\nCD\n" then "EF\n" complete the lines "AB", then "CD\nEF"; src/usb.rs returns these, and src/line_breaker.rs returns them short of their last byte, "A" and "CD\nE" | a pending `\n` ends a line first, so the lines are "AB", "CD", "EF" | high, not executed | LineFraming.BufferedNewlineSwallowed | LineFraming.CorrectedLinesFollowStream |
| src/cmd_processor.rs:240-251 | the packet is `Vec<u8, 96>` but holds the tag byte and 3 bytes per colour | `L` followed by 32 colours (192 hex digits), which the length check admits | capacity `1 + 32 * 3`, so 32 colours are sent | high, not executed | CmdProcessor.SetColorPanicsAtThirtyTwo | CmdProcessor.CorrectedSetColorNeverPanics |
| src/ring_buffer.rs:84-90 | `len` is `read - write` (mod N) | N = 8 with one item queued: `len` is 7 | `write - read` (mod N), the number queued; src/ring_buffer.rs is not in the `mod` list of src/main.rs and no built file uses `RingBuffer`, so this is about code that is never built | high, not executed | RingBuffers.LenCountsTheWrongWay | RingBuffers.CorrectedLenOfBuffer |
| src/flash_hal.rs:402-445 | `program_it` builds its `FlashProcess` in a local and never stores it into `FLASH_PROCESS` | a Word write: only the low halfword is programmed; the next interrupt finds the idle process and calls no callback | the process is stored, so the interrupts program the rest. src/flash_hal.rs is not in the `mod` list of src/main.rs and would not compile as written (`FlashProcedure` lacks `PartialEq` for the `!=` at line 147, and `embassy_sync::mutex::Mutex` has no `borrow_ref_mut`), so this is about code that is never built | medium, not executed | FlashHal.WordWriteAsWritten | FlashHal.WordWriteCorrected |
| src/ring_buffer.rs:47-74 | `next_write` advances the write index, and `write_done` compares the item with `self.buffer.as_ptr().add(next_write_idx)`, where `as_ptr()` of `MaybeUninit<[T; N]>` points to a whole `[T; N]`, so `add` strides `N` elements | N = 8, new buffer: `next_write` gives slot 0 and moves the index to 1, and `write_done(slot 0)` compares it with element offset 8; even a reserved slot 1 would be compared with offset 8 | `next_write` reserves the slot, and `write_done` casts to `*const T` before `add`, so it compares with the slot at the index and commits it; src/ring_buffer.rs is not in the `mod` list of src/main.rs and no built file uses `RingBuffer`, so this is about code that is never built | medium, not executed | RingBuffers.NextWriteThenWriteDone | RingBuffers.ReserveThenCommit |
