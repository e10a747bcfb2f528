/** The Master board (src/master.rs): its table of panels that answered,
    its command interpreter and the response buffer it writes into. The
    parts that wait for replies are unfinished (`todo!()`) in the firmware,
    so a command that reaches them ends as `Unfinished`. */
module MasterNode {
  import opened Base
  import opened Text
  import opened Protocol

  const MAX_PANEL_SLOTS: nat := 32

  /** A signed byte (`i8`). */
  type I8 = x: int | -128 <= x < 128

  /** `b as i8`: the two's-complement reading of a byte. */
  function AsI8(b: Byte): (r: I8)
    ensures r % 256 == b
  {
    if b < 128 then b else b - 256
  }

  datatype PanelInfo = PanelInfo(id: Byte, bootCount: Byte, rssiMaster: I8, rssiPanel: I8, pirs: Byte, slot: Byte)

  /** No two entries share an id. */
  predicate UniqueIds(panels: seq<PanelInfo>)
  {
    forall i, j :: 0 <= i < j < |panels| ==> panels[i].id != panels[j].id
  }

  /** What every reply leaves true of the table. */
  predicate TableInv(panels: seq<PanelInfo>)
  {
    |panels| <= MAX_PANEL_SLOTS && UniqueIds(panels)
  }

  /** `panels.iter_mut().find(|p| p.id == from)`: the first entry with id `from`. */
  function FindPanel(panels: seq<PanelInfo>, from: Byte): (r: Option<nat>)
    ensures r.None? <==> forall i :: 0 <= i < |panels| ==> panels[i].id != from
    ensures r.Some? ==>
      r.value < |panels| && panels[r.value].id == from && forall i :: 0 <= i < r.value ==> panels[i].id != from
  {
    if panels == [] then None
    else if panels[0].id == from then Some(0)
    else match FindPanel(panels[1..], from)
      case None => None
      case Some(k) => Some(k + 1)
  }

  /** The table after `handle_reply(rssi_master, panels, from, msg)`. */
  function AfterReply(panels: seq<PanelInfo>, rssiMaster: I8, from: Byte, msg: Message): seq<PanelInfo>
  {
    match msg
    case Enumerate(bootCount, rssi) =>
      (match FindPanel(panels, from)
       case Some(k) =>
         panels[k := panels[k].(bootCount := bootCount, rssiMaster := rssiMaster, rssiPanel := AsI8(rssi))]
       case None =>
         if |panels| < MAX_PANEL_SLOTS
         then panels + [PanelInfo(from, bootCount, rssiMaster, AsI8(rssi), 0, 0)]
         else panels)
    case SetColorReply(pirs) =>
      if pirs == 0 then panels
      else (match FindPanel(panels, from)
            case Some(k) => panels[k := panels[k].(pirs := pirs)]
            case None => panels)
    case MapPanelReply(slot) =>
      (match FindPanel(panels, from)
       case Some(k) => panels[k := panels[k].(slot := slot)]
       case None => panels)
    case _ => panels
  }

  /** Replies keep ids unique and the table within its 32 entries. */
  lemma ReplyPreservesTableInv(panels: seq<PanelInfo>, rssiMaster: I8, from: Byte, msg: Message)
    requires TableInv(panels)
    ensures TableInv(AfterReply(panels, rssiMaster, from, msg))
  {
  }

  /** An `Enumerate` reply leaves an entry for its sender holding the new
      boot count and signal strengths, unless the table was full and had no
      such entry; a new entry starts with no PIRs and slot 0, an existing one
      keeps its PIRs and slot. */
  lemma EnumerateUpserts(panels: seq<PanelInfo>, rssiMaster: I8, from: Byte, bootCount: Byte, rssi: Byte)
    requires TableInv(panels)
    ensures var after := AfterReply(panels, rssiMaster, from, Enumerate(bootCount, rssi));
      match FindPanel(after, from)
      case None => FindPanel(panels, from).None? && |panels| == MAX_PANEL_SLOTS && after == panels
      case Some(k) =>
        && after[k].bootCount == bootCount && after[k].rssiMaster == rssiMaster
        && after[k].rssiPanel == AsI8(rssi)
        && (match FindPanel(panels, from)
            case Some(j) => j == k && after[k].pirs == panels[j].pirs && after[k].slot == panels[j].slot
            case None => k == |panels| && after[k].pirs == 0 && after[k].slot == 0)
  {
    var after := AfterReply(panels, rssiMaster, from, Enumerate(bootCount, rssi));
    match FindPanel(panels, from)
    case Some(j) =>
      assert after[j].id == from;
      assert forall i :: 0 <= i < j ==> after[i] == panels[i];
    case None =>
      if |panels| < MAX_PANEL_SLOTS {
        assert after[|panels|].id == from;
        assert forall i :: 0 <= i < |panels| ==> after[i] == panels[i];
      }
  }

  /** A reply changes no entry but its sender's, never removes an entry,
      and only an `Enumerate` adds one. */
  lemma ReplyTouchesOnlySender(panels: seq<PanelInfo>, rssiMaster: I8, from: Byte, msg: Message)
    ensures var after := AfterReply(panels, rssiMaster, from, msg);
      && |panels| <= |after| <= |panels| + 1
      && (forall i :: 0 <= i < |panels| && panels[i].id != from ==> after[i] == panels[i])
      && (forall i :: 0 <= i < |panels| ==> after[i].id == panels[i].id)
      && (!msg.Enumerate? ==> |after| == |panels|)
  {
  }

  /** `SetColorReply` with no PIR set, a reply from an unknown sender other
      than `Enumerate`, and any request-type message leave the table as it is. */
  lemma RepliesThatChangeNothing(panels: seq<PanelInfo>, rssiMaster: I8, from: Byte, msg: Message)
    requires || (msg.SetColorReply? && msg.pirs == 0)
             || (!msg.Enumerate? && FindPanel(panels, from).None?)
             || msg.SetColors? || msg.MapPanels? || msg.Ping? || msg.Reset? || msg.SetStatus? || msg.Test?
    ensures AfterReply(panels, rssiMaster, from, msg) == panels
  {
  }

  /** A `SetColorReply` with PIRs, or a `MapPanelReply`, from a known
      sender sets exactly that entry's `pirs` or `slot`. */
  lemma UpdateRepliesSetOneField(panels: seq<PanelInfo>, rssiMaster: I8, from: Byte, msg: Message)
    requires (msg.SetColorReply? && msg.pirs != 0) || msg.MapPanelReply?
    requires FindPanel(panels, from).Some?
    ensures var k := FindPanel(panels, from).value;
      AfterReply(panels, rssiMaster, from, msg) ==
        if msg.SetColorReply? then panels[k := panels[k].(pirs := msg.pirs)]
        else panels[k := panels[k].(slot := msg.slot)]
  {
  }

  // ---------------------------------------------------------------------
  // Commands

  /** How a command ends. */
  datatype Ending =
    | Returned
      /** The default mode was persisted and `sys_reset` called. */
    | Restarts(persisted: Mode)
      /** A `todo!()` was reached. */
    | Unfinished
      /** An `unwrap` failed. */
    | Panics
      /** The default mode was persisted, then writing "OK" panicked. */
    | PanicsAfterPersisting(persisted: Mode)

  /** How a command ends when one of its response writes does not fit. The
      only command that changes anything outside the response before
      writing is `set_default_mode`: it persists the mode and then writes
      "OK", so that persisted mode survives the panic. */
  function Interrupted(e: Ending): (r: Ending)
    ensures r.Panics? || r.PanicsAfterPersisting?
    ensures r.PanicsAfterPersisting? <==> e.Restarts?
    ensures e.Restarts? ==> r.persisted == e.persisted
  {
    if e.Restarts? then PanicsAfterPersisting(e.persisted) else Panics
  }

  /** What `handle_command` does: the buffers it writes to the response, in
      order, the messages it broadcasts, and how it ends. */
  datatype CommandRun = CommandRun(writes: seq<seq<Byte>>, broadcasts: seq<seq<Byte>>, ending: Ending)

  const QUESTION: seq<Byte> := [ASCII_QUESTION]
  const OK: seq<Byte> := [79, 75]             // b"OK"
  const CRLF: seq<Byte> := [ASCII_CR, NEWLINE] // b"\r\n"

  /** `broadcast(msg)`: one message, the serialised bytes, is sent exactly
      when the message serialises (fits in `MAX_PAYLOAD_SIZE` bytes);
      otherwise nothing is sent. */
  function Broadcast(msg: Message, myAddress: Byte): (r: seq<seq<Byte>>)
    ensures |r| <= 1
    ensures |r| == 1 <==> Serialize(msg, myAddress).Some?
    ensures |r| == 1 ==> r[0] == Serialize(msg, myAddress).value
  {
    match Serialize(msg, myAddress)
    case Some(bytes) => [bytes]
    case None => []
  }

  /** The `k`-th colour of the arguments: three pairs of hex digits, each
      through `u8::from_str_radix`; `None` when one does not parse. */
  function ColourAt(args: seq<Byte>, k: nat): Option<Rgb>
    requires 6 * k + 6 <= |args|
  {
    var r := FromStrRadix16(args[6 * k..6 * k + 2]);
    var g := FromStrRadix16(args[6 * k + 2..6 * k + 4]);
    var b := FromStrRadix16(args[6 * k + 4..6 * k + 6]);
    if r.None? || g.None? || b.None? then None else Some(Rgb(r.value, g.value, b.value))
  }

  /** Past the first colour, the colours are those of the rest. */
  lemma ColoursShift(args: seq<Byte>)
    requires |args| >= 6
    ensures forall k: nat {:trigger ColourAt(args[6..], k)} :: 6 * k + 6 <= |args| - 6 ==>
      ColourAt(args[6..], k) == ColourAt(args, k + 1)
  {
    forall k: nat | 6 * k + 6 <= |args| - 6
      ensures ColourAt(args[6..], k) == ColourAt(args, k + 1)
    {
      var rest := args[6..];
      assert rest[6 * k..6 * k + 2] == args[6 * (k + 1)..6 * (k + 1) + 2];
      assert rest[6 * k + 2..6 * k + 4] == args[6 * (k + 1) + 2..6 * (k + 1) + 4];
      assert rest[6 * k + 4..6 * k + 6] == args[6 * (k + 1) + 4..6 * (k + 1) + 6];
    }
  }

  /** Every six-digit group of the arguments parses. */
  predicate AllColoursParse(args: seq<Byte>)
    requires |args| % 6 == 0
  {
    forall k: nat :: k < |args| / 6 ==> ColourAt(args, k).Some?
  }

  /** `cs` holds the colours of the arguments, one per group, in order. */
  predicate ColoursOf(args: seq<Byte>, cs: seq<Rgb>)
    requires |args| % 6 == 0
  {
    |cs| == |args| / 6 && forall k :: 0 <= k < |cs| ==> ColourAt(args, k) == Some(cs[k])
  }

  /** All colours parse exactly when the first does and all of the rest do. */
  lemma AllColoursSplit(args: seq<Byte>)
    requires |args| >= 6 && |args| % 6 == 0
    ensures AllColoursParse(args) <==> ColourAt(args, 0).Some? && AllColoursParse(args[6..])
  {
    ColoursShift(args);
    assert |args[6..]| / 6 == |args| / 6 - 1;
    if ColourAt(args, 0).Some? && AllColoursParse(args[6..]) {
      forall k: nat | k < |args| / 6 ensures ColourAt(args, k).Some? {
        if k > 0 {
          assert ColourAt(args[6..], k - 1).Some?;
        }
      }
    }
  }

  /** The first colour in front of the colours of the rest are the colours
      of the whole. */
  lemma ConsColours(args: seq<Byte>, c: Rgb, rest: seq<Rgb>)
    requires |args| >= 6 && |args| % 6 == 0
    requires ColourAt(args, 0) == Some(c) && ColoursOf(args[6..], rest)
    ensures ColoursOf(args, [c] + rest)
  {
    ColoursShift(args);
    assert |args[6..]| / 6 == |args| / 6 - 1;
    var cs := [c] + rest;
    forall k | 0 <= k < |cs| ensures ColourAt(args, k) == Some(cs[k]) {
      if k > 0 {
        assert ColourAt(args[6..], k - 1) == Some(rest[k - 1]);
      }
    }
  }

  /** The colours `set_colors` decodes from its arguments: every colour
      when all of them parse, and `None` when one does not (its `unwrap`
      panics). Every colour is decoded, though only the first 32 are kept. */
  function DecodeAllColors(args: seq<Byte>): (r: Option<seq<Rgb>>)
    requires |args| % 6 == 0
    ensures r.Some? <==> AllColoursParse(args)
    ensures r.Some? ==> ColoursOf(args, r.value)
    decreases |args|
  {
    if args == [] then Some([])
    else
      AllColoursSplit(args);
      match ColourAt(args, 0)
      case None => None
      case Some(c) =>
        match DecodeAllColors(args[6..])
        case None => None
        case Some(rest) =>
          ConsColours(args, c, rest);
          Some([c] + rest)
  }

  /** What `slots.push(..).ok()` keeps of the decoded colours: the first
      `min(|s|, MAX_PANEL_SLOTS)` of them, in order. */
  function KeepSlots(s: seq<Rgb>): (r: seq<Rgb>)
    ensures r <= s
    ensures |r| == if |s| <= MAX_PANEL_SLOTS then |s| else MAX_PANEL_SLOTS
  {
    if |s| <= MAX_PANEL_SLOTS then s else s[..MAX_PANEL_SLOTS]
  }

  /** Upper-case hex for a list of colours, as a host would send it. */
  function HexColors(slots: seq<Rgb>): (args: seq<Byte>)
    ensures |args| == 6 * |slots|
  {
    if slots == [] then []
    else
      var c := slots[0];
      [UpperDigit(c.r / 16), UpperDigit(c.r % 16), UpperDigit(c.g / 16), UpperDigit(c.g % 16),
       UpperDigit(c.b / 16), UpperDigit(c.b % 16)] + HexColors(slots[1..])
  }

  /** Decoding reads back any colours sent as hex. */
  lemma {:induction false} DecodeHexColors(slots: seq<Rgb>)
    ensures DecodeAllColors(HexColors(slots)) == Some(slots)
  {
    if slots != [] {
      var args := HexColors(slots);
      var c := slots[0];
      assert args[6..] == HexColors(slots[1..]);
      DecodeHexColors(slots[1..]);
      assert args[0..2] == [UpperDigit(c.r / 16), UpperDigit(c.r % 16)];
      assert args[2..4] == [UpperDigit(c.g / 16), UpperDigit(c.g % 16)];
      assert args[4..6] == [UpperDigit(c.b / 16), UpperDigit(c.b % 16)];
      FromStrRadixInvertsUpper(c.r);
      FromStrRadixInvertsUpper(c.g);
      FromStrRadixInvertsUpper(c.b);
      assert Rgb(c.r, c.g, c.b) == c;
      assert [c] + slots[1..] == slots;
    }
  }

  /** `set_colors(args)` up to its `todo!()`. */
  function SetColorsRun(args: seq<Byte>, myAddress: Byte): CommandRun
  {
    if |args| % 6 != 0 then CommandRun([QUESTION, CRLF], [], Returned)
    else match DecodeAllColors(args)
      case None => CommandRun([], [], Panics)
      case Some(all) => CommandRun([], Broadcast(SetColors(KeepSlots(all)), myAddress), Unfinished)
  }

  /** `set_default_mode(args)`: only the first byte is looked at. */
  function SetDefaultModeRun(args: seq<Byte>): CommandRun
  {
    if |args| > 0 && args[0] == ASCII_M then CommandRun([OK], [], Restarts(Master))
    else if |args| > 0 && args[0] == ASCII_P then CommandRun([OK], [], Restarts(Panel))
    else CommandRun([QUESTION, CRLF], [], Returned)
  }

  /** The size `test_message` asks for: 0 for no arguments or for text that
      is not a `u8`; arguments that are not UTF-8 make `from_utf8(..).unwrap()`
      panic. */
  function TestMessageRun(args: seq<Byte>, myAddress: Byte): CommandRun
  {
    if |args| > 0 && !ValidUtf8(args) then CommandRun([], [], Panics)
    else
      var size := if |args| == 0 then 0 else match ParseU8(args) case Some(v) => v case None => 0;
      CommandRun([OK, CRLF], Broadcast(Test(size), myAddress), Returned)
  }

  /** `handle_command(command, response)`; `version` is `version::VERSION`. */
  function CommandRunFor(command: seq<Byte>, version: seq<Byte>, myAddress: Byte): (r: CommandRun)
    ensures r.ending.Returned? ==> |r.writes| >= 1 && r.writes[|r.writes| - 1] == CRLF
  {
    if command == [] then CommandRun([QUESTION, CRLF], [], Returned)
    else
      var cmd, args := command[0], command[1..];
      if cmd == ASCII_D then SetDefaultModeRun(args)
      else if cmd == ASCII_E then
        // `enumerate` clears the table, broadcasts a ping and waits: `todo!()`
        CommandRun([], Broadcast(Ping, myAddress), Unfinished)
      else if cmd == ASCII_L then SetColorsRun(args, myAddress)
      else if cmd == ASCII_M then CommandRun([], [], Unfinished)
      else if cmd == ASCII_R then CommandRun([], [], Unfinished)
      else if cmd == ASCII_V then CommandRun([version, CRLF], [], Returned)
      else if cmd == ASCII_UNDERSCORE then TestMessageRun(args, myAddress)
      else CommandRun([QUESTION, CRLF], [], Returned)
  }

  /** An empty line or an unknown command byte is answered "?\r\n". */
  lemma UnknownCommandsAnsweredQuestion(command: seq<Byte>, version: seq<Byte>, myAddress: Byte)
    requires command == [] ||
      command[0] !in {ASCII_D, ASCII_E, ASCII_L, ASCII_M, ASCII_R, ASCII_V, ASCII_UNDERSCORE}
    ensures CommandRunFor(command, version, myAddress) == CommandRun([QUESTION, CRLF], [], Returned)
  {
  }

  /** `D` with `M` or `P` persists the mode before it writes "OK": with
      fewer than two bytes free in the response, the write panics after
      the mode is persisted. */
  lemma DefaultModePersistedBeforeOk(args: seq<Byte>, contents: seq<Byte>, n: nat, version: seq<Byte>, myAddress: Byte)
    requires |args| > 0 && args[0] in {ASCII_M, ASCII_P}
    requires |contents| + 2 > n
    ensures var run := CommandRunFor([ASCII_D] + args, version, myAddress);
      && !AfterWrites(contents, n, run.writes).1
      && Interrupted(run.ending) == PanicsAfterPersisting(if args[0] == ASCII_M then Master else Panel)
  {
    DefaultModeAcceptsOnlyMasterOrPanel(args, version, myAddress);
  }

  /** `D` restarts exactly for a first argument byte `M` or `P`, persisting
      that mode; anything else is answered "?\r\n". */
  lemma DefaultModeAcceptsOnlyMasterOrPanel(args: seq<Byte>, version: seq<Byte>, myAddress: Byte)
    ensures var r := CommandRunFor([ASCII_D] + args, version, myAddress);
      && (r.ending.Restarts? <==> |args| > 0 && args[0] in {ASCII_M, ASCII_P})
      && (r.ending.Restarts? ==>
            r.writes == [OK] && r.ending.persisted == (if args[0] == ASCII_M then Master else Panel))
      && (!r.ending.Restarts? ==> r.writes == [QUESTION, CRLF])
  {
    assert ([ASCII_D] + args)[1..] == args;
  }

  /** `L` with a length that is not a multiple of six is answered "?\r\n". */
  lemma SetColorsRejectsBadLength(junk: seq<Byte>, version: seq<Byte>, myAddress: Byte)
    requires |junk| % 6 != 0
    ensures CommandRunFor([ASCII_L] + junk, version, myAddress) == CommandRun([QUESTION, CRLF], [], Returned)
  {
    assert ([ASCII_L] + junk)[1..] == junk;
  }

  /** `L` with well-formed hex broadcasts the colours when the message fits
      in 64 bytes, that is for at most 20 colours, and sends nothing for
      more; either way it then reaches its `todo!()`. */
  lemma SetColorsBroadcastsAtMostTwenty(slots: seq<Rgb>, version: seq<Byte>, myAddress: Byte)
    ensures var r := CommandRunFor([ASCII_L] + HexColors(slots), version, myAddress);
      && r.ending == Unfinished
      && (|slots| <= 20 ==> r.broadcasts == [[myAddress, TAG_SET_COLORS] + FlattenRgb(slots)])
      && (|slots| > 20 ==> r.broadcasts == [])
  {
    var args := HexColors(slots);
    DispatchesToSetColors(args, version, myAddress);
    HexColorsRun(slots, myAddress);
    SetColorsFitsUpToTwenty(KeepSlots(slots), myAddress);
  }

  lemma HexColorsRun(slots: seq<Rgb>, myAddress: Byte)
    ensures SetColorsRun(HexColors(slots), myAddress)
      == CommandRun([], Broadcast(SetColors(KeepSlots(slots)), myAddress), Unfinished)
  {
    SixDivides(|slots|);
    DecodeHexColors(slots);
  }

  lemma DispatchesToSetColors(args: seq<Byte>, version: seq<Byte>, myAddress: Byte)
    ensures CommandRunFor([ASCII_L] + args, version, myAddress) == SetColorsRun(args, myAddress)
  {
    assert ([ASCII_L] + args)[1..] == args;
  }

  /** A set-colours message fits in `MAX_PAYLOAD_SIZE` bytes for at most
      20 colours. */
  lemma SetColorsFitsUpToTwenty(slots: seq<Rgb>, from: Byte)
    ensures |slots| <= 20 ==> Broadcast(SetColors(slots), from) == [[from, TAG_SET_COLORS] + FlattenRgb(slots)]
    ensures |slots| > 20 ==> Broadcast(SetColors(slots), from) == []
  {
  }

  lemma SixDivides(k: nat)
    ensures (6 * k) % 6 == 0
  {
  }

  /** `V` answers the version and CR LF, whatever follows the `V`. */
  lemma VersionIgnoresArguments(args: seq<Byte>, version: seq<Byte>, myAddress: Byte)
    ensures CommandRunFor([ASCII_V] + args, version, myAddress) == CommandRun([version, CRLF], [], Returned)
  {
  }

  /** `_` broadcasts a test message of the requested size, 0 without
      arguments, and answers "OK\r\n". */
  lemma TestMessageBroadcastsSize(b: Byte, version: seq<Byte>, myAddress: Byte)
    ensures CommandRunFor([ASCII_UNDERSCORE] + DecimalString(b), version, myAddress)
         == CommandRun([OK, CRLF], [[myAddress, TAG_TEST, b]], Returned)
    ensures CommandRunFor([ASCII_UNDERSCORE], version, myAddress)
         == CommandRun([OK, CRLF], [[myAddress, TAG_TEST, 0]], Returned)
  {
    var s := DecimalString(b);
    assert ([ASCII_UNDERSCORE] + s)[1..] == s;
    assert [ASCII_UNDERSCORE][1..] == [];
    AsciiIsUtf8(s);
    ParseU8InvertsDecimal(b);
    assert Serialize(Test(b), myAddress) == Some([myAddress, TAG_TEST] + [b]);
    assert [myAddress, TAG_TEST] + [b] == [myAddress, TAG_TEST, b];
    assert Serialize(Test(0), myAddress) == Some([myAddress, TAG_TEST] + [0]);
    assert [myAddress, TAG_TEST] + [0] == [myAddress, TAG_TEST, 0];
  }

  // ---------------------------------------------------------------------
  // The response buffer

  datatype WriteResult = Written(count: nat) | Overflow

  /** `WriteableVec<N>`: a response buffer that refuses a write that does
      not fit. */
  class WriteableVec {
    var contents: seq<Byte>
    const n: nat

    ghost predicate Valid()
      reads this
    {
      |contents| <= n
    }

    constructor (n: nat)
      ensures Valid() && this.n == n && contents == []
    {
      this.n := n;
      contents := [];
    }

    /** `write(buf)`: all of `buf` or, with `Overflow`, nothing. */
    method Write(buf: seq<Byte>) returns (r: WriteResult)
      requires Valid()
      modifies this
      ensures Valid()
      ensures r == (if old(|contents|) + |buf| <= n then Written(|buf|) else Overflow)
      ensures contents == (if r.Written? then old(contents) + buf else old(contents))
    {
      if |contents| + |buf| > n {
        return Overflow;
      }
      contents := contents + buf;
      return Written(|buf|);
    }
  }

  /** The contents after `write_all(..).unwrap()` of each buffer in turn:
      the buffers written before the first that does not fit, and whether
      all fitted. */
  function AfterWrites(contents: seq<Byte>, n: nat, writes: seq<seq<Byte>>): (seq<Byte>, bool)
    decreases |writes|
  {
    if writes == [] then (contents, true)
    else if |contents| + |writes[0]| > n then (contents, false)
    else AfterWrites(contents + writes[0], n, writes[1..])
  }

  function Concat(writes: seq<seq<Byte>>): seq<Byte>
  {
    if writes == [] then [] else writes[0] + Concat(writes[1..])
  }

  /** With room for everything, the writes append their concatenation; a
      write never fails while the total fits. */
  lemma {:induction false} WritesAppendWhenRoom(contents: seq<Byte>, n: nat, writes: seq<seq<Byte>>)
    requires |contents| + |Concat(writes)| <= n
    ensures AfterWrites(contents, n, writes) == (contents + Concat(writes), true)
    decreases |writes|
  {
    if writes != [] {
      assert Concat(writes) == writes[0] + Concat(writes[1..]);
      assert (contents + writes[0]) + Concat(writes[1..]) == contents + Concat(writes);
      WritesAppendWhenRoom(contents + writes[0], n, writes[1..]);
    } else {
      assert contents + Concat(writes) == contents;
    }
  }

  /** Whatever happens, the response only grows by whole writes and stays
      within its capacity. */
  lemma {:induction false} WritesKeepPrefix(contents: seq<Byte>, n: nat, writes: seq<seq<Byte>>)
    requires |contents| <= n
    ensures var (after, _) := AfterWrites(contents, n, writes);
      contents <= after && |after| <= n && after <= contents + Concat(writes)
    decreases |writes|
  {
    if writes != [] && |contents| + |writes[0]| <= n {
      WritesKeepPrefix(contents + writes[0], n, writes[1..]);
      assert contents + writes[0] + Concat(writes[1..]) == contents + Concat(writes);
    }
  }

  /** Whether the command empties the panel list: `enumerate` (`E`) always
      does, `set_colors` (`L`) once every colour has been decoded. */
  predicate ClearsPanels(command: seq<Byte>, run: CommandRun)
  {
    |command| > 0 && (command[0] == ASCII_E || (command[0] == ASCII_L && run.ending == Unfinished))
  }

  class Master {
    const myAddress: Byte
    var panels: seq<PanelInfo>

    constructor (myAddress: Byte)
      ensures this.myAddress == myAddress && panels == []
    {
      this.myAddress := myAddress;
      panels := [];
    }

    /** The `iter_mut().find(|p| p.id == from)` scan. */
    method Find(from: Byte) returns (r: Option<nat>)
      ensures r == FindPanel(panels, from)
    {
      var i := 0;
      while i < |panels|
        invariant 0 <= i <= |panels|
        invariant forall j :: 0 <= j < i ==> panels[j].id != from
      {
        if panels[i].id == from {
          FirstMatchIsFound(panels, from, i);
          return Some(i);
        }
        i := i + 1;
      }
      return None;
    }

    /** `handle_reply(rssi_master, &mut self.panels, from, msg)`. */
    method HandleReply(rssiMaster: I8, from: Byte, msg: Message)
      modifies this
      ensures panels == AfterReply(old(panels), rssiMaster, from, msg)
    {
      match msg {
        case Enumerate(bootCount, rssi) =>
          var found := Find(from);
          if found.Some? {
            var k := found.value;
            panels := panels[k := panels[k].(bootCount := bootCount, rssiMaster := rssiMaster, rssiPanel := AsI8(rssi))];
          } else if |panels| < MAX_PANEL_SLOTS {
            panels := panels + [PanelInfo(from, bootCount, rssiMaster, AsI8(rssi), 0, 0)];
          }
        case SetColorReply(pirs) =>
          if pirs != 0 {
            var found := Find(from);
            if found.Some? {
              panels := panels[found.value := panels[found.value].(pirs := pirs)];
            }
          }
        case MapPanelReply(slot) =>
          var found := Find(from);
          if found.Some? {
            panels := panels[found.value := panels[found.value].(slot := slot)];
          }
        case _ =>
      }
    }

    /** `handle_command(command, response)`: performs the command's writes
        with `write_all(..).unwrap()`, which panics on the first that does
        not fit, and clears the table where `enumerate` and `set_colors` do
        before their `todo!()`. Returns how the command ends and what it
        broadcasts. */
    method HandleCommand(command: seq<Byte>, version: seq<Byte>, response: WriteableVec)
      returns (ending: Ending, broadcasts: seq<seq<Byte>>)
      requires response.Valid()
      modifies this, response
      ensures response.Valid()
      ensures var run := CommandRunFor(command, version, myAddress);
        var (after, fitted) := AfterWrites(old(response.contents), response.n, run.writes);
        && response.contents == after
        && broadcasts == run.broadcasts
        && ending == (if fitted then run.ending else Interrupted(run.ending))
      ensures panels == if ClearsPanels(command, CommandRunFor(command, version, myAddress)) then [] else old(panels)
    {
      var run := CommandRunFor(command, version, myAddress);
      if ClearsPanels(command, run) {
        panels := [];
      }
      var i := 0;
      while i < |run.writes|
        invariant 0 <= i <= |run.writes| && response.Valid()
        invariant AfterWrites(old(response.contents), response.n, run.writes)
               == AfterWrites(response.contents, response.n, run.writes[i..])
        invariant panels == if ClearsPanels(command, run) then [] else old(panels)
      {
        var w := response.Write(run.writes[i]);
        if w.Overflow? {
          return Interrupted(run.ending), run.broadcasts;
        }
        i := i + 1;
      }
      return run.ending, run.broadcasts;
    }
  }

  lemma FirstMatchIsFound(panels: seq<PanelInfo>, from: Byte, i: nat)
    requires i < |panels| && panels[i].id == from
    requires forall j :: 0 <= j < i ==> panels[j].id != from
    ensures FindPanel(panels, from) == Some(i)
  {
    var r := FindPanel(panels, from);
    assert r.Some?;
  }
}
