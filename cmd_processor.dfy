/** The command interpreter of src/cmd_processor.rs: one line in, one reply
    (or a terminal action) out. The board's role is passed to
    `handle_command` but never consulted, so no command is refused by role.
    Transmission to the panels (`send_command`) is left out; a command that
    reaches it ends as `Sends(packet)`, after which the firmware answers
    "OK". */
module CmdProcessor {
  import opened Base
  import opened Text

  /** `MAX_PANEL_SLOTS` of this file. */
  const MAX_PANEL_SLOTS: nat := 32
  /** The capacity of the set-colour packet, `Vec<u8, { MAX_PANEL_SLOTS * 3 }>`. */
  const PACKET_CAPACITY: nat := MAX_PANEL_SLOTS * 3
  /** The size of `reply_buf` that `CmdProcessor::run` passes in. */
  const REPLY_BUF_LEN: nat := 256

  const QUESTION: seq<Byte> := [ASCII_QUESTION]
  const ERROR_EXPECTED_MODE: seq<Byte> := Ascii("ERROR Expected M, P, or S")

  /** How one command ends. */
  datatype Outcome =
    | Reply(bytes: seq<Byte>)
      /** The default mode was persisted and `sys_reset` called. */
    | Restarts(persisted: Mode)
      /** The packet is handed to `send_command`; the reply is then "OK". */
    | Sends(packet: seq<Byte>)
      /** A `todo!()` was reached, after decoding `decoded`. */
    | Unfinished(decoded: seq<Byte>)
      /** A `push(..).unwrap()` or a slice index failed. */
    | Panics

  // ---------------------------------------------------------------------
  // Hex arguments: two digits per byte

  /** The `k`-th two-digit pair of `args` as `parse_hex_byte` reads it. */
  function Pair(args: seq<Byte>, k: nat): Option<Byte>
    requires 2 * k + 2 <= |args|
  {
    ParseHexByte(args[2 * k..2 * k + 2])
  }

  predicate AllPairsValid(args: seq<Byte>)
  {
    forall k :: 0 <= k < |args| / 2 ==> Pair(args, k).Some?
  }

  /** The bytes the pairs of `args` spell, in order. */
  function DecodedPairs(args: seq<Byte>): (r: seq<Byte>)
    requires AllPairsValid(args)
    ensures |r| == |args| / 2
    ensures forall k :: 0 <= k < |r| ==> Some(r[k]) == Pair(args, k)
  {
    seq(|args| / 2, k requires 0 <= k < |args| / 2 => Pair(args, k).value)
  }

  /** Upper-case hex for a byte string, as a host would type it. */
  function HexOf(bytes: seq<Byte>): (args: seq<Byte>)
    ensures |args| == 2 * |bytes|
    ensures forall k :: 0 <= k < |bytes| ==>
      args[2 * k] == UpperDigit(bytes[k] / 16) && args[2 * k + 1] == UpperDigit(bytes[k] % 16)
  {
    if bytes == [] then []
    else [UpperDigit(bytes[0] / 16), UpperDigit(bytes[0] % 16)] + HexOf(bytes[1..])
  }

  /** Hex arguments decode back to the bytes they were made from. */
  lemma HexOfDecodes(bytes: seq<Byte>)
    ensures AllPairsValid(HexOf(bytes)) && DecodedPairs(HexOf(bytes)) == bytes
  {
    var args := HexOf(bytes);
    assert |args| / 2 == |bytes|;
    forall k | 0 <= k < |bytes|
      ensures Pair(args, k) == Some(bytes[k])
    {
      var digits := args[2 * k..2 * k + 2];
      assert digits[0] == args[2 * k] && digits[1] == args[2 * k + 1];
      assert digits == [UpperDigit(bytes[k] / 16), UpperDigit(bytes[k] % 16)] + [];
      ParseHexByteInvertsUpper(bytes[k], []);
    }
    assert AllPairsValid(args);
    var decoded := DecodedPairs(args);
    assert forall k :: 0 <= k < |decoded| ==> decoded[k] == bytes[k];
  }

  // ---------------------------------------------------------------------
  // The handlers

  datatype Command = DefaultMode | Version | Enumerate | SetColor | MapPanels | ResetAll

  /** `Command::try_from(cmd_byte)`. */
  function CommandFromByte(b: Byte): (r: Option<Command>)
    ensures r.Some? <==> b in {ASCII_D, ASCII_V, ASCII_E, ASCII_L, ASCII_M, ASCII_R}
  {
    if b == ASCII_D then Some(DefaultMode)
    else if b == ASCII_V then Some(Version)
    else if b == ASCII_E then Some(Enumerate)
    else if b == ASCII_L then Some(SetColor)
    else if b == ASCII_M then Some(MapPanels)
    else if b == ASCII_R then Some(ResetAll)
    else None
  }

  /** `handle_default_mode`: exactly one argument byte, `M`, `P` or `S`. */
  function DefaultModeOutcome(args: seq<Byte>): Outcome
  {
    if |args| != 1 then Reply(ERROR_EXPECTED_MODE)
    else if args[0] == ASCII_M then Restarts(Master)
    else if args[0] == ASCII_P then Restarts(Panel)
    else if args[0] == ASCII_S then Restarts(Spy)
    else Reply(ERROR_EXPECTED_MODE)
  }

  /** `handle_version`: `version::VERSION` copied into the reply buffer,
      which panics when the version does not fit. */
  function VersionOutcome(version: seq<Byte>): Outcome
  {
    if |version| <= REPLY_BUF_LEN then Reply(version) else Panics
  }

  /** `handle_set_color` up to `send_command`. Every pair is checked
      before it is pushed, so an invalid pair is answered "?" even in a
      packet that would overflow; with all pairs valid the 96th data byte
      does not fit behind the tag byte. */
  function SetColorOutcome(args: seq<Byte>): Outcome
  {
    if |args| % 6 != 0 || |args| / 6 > MAX_PANEL_SLOTS then Reply(QUESTION)
    else if !AllPairsValid(args) then Reply(QUESTION)
    else if 1 + |args| / 2 > PACKET_CAPACITY then Panics
    else Sends([ASCII_L] + DecodedPairs(args))
  }

  /** `handle_map_panels` up to its `todo!()`. */
  function MapPanelsOutcome(args: seq<Byte>): Outcome
  {
    if |args| % 2 != 0 || |args| > MAX_PANEL_SLOTS * 2 then Reply([])
    else if !AllPairsValid(args) then Reply([])
    else Unfinished(DecodedPairs(args))
  }

  /** `handle_command(mode, comm, line, reply_buf)`. */
  function CommandOutcome(line: seq<Byte>, version: seq<Byte>): Outcome
  {
    if line == [] then Reply([])
    else
      var args := line[1..];
      match CommandFromByte(line[0])
      case None => Reply(QUESTION)
      case Some(DefaultMode) => DefaultModeOutcome(args)
      case Some(Version) => VersionOutcome(version)
      case Some(Enumerate) => Unfinished([])
      case Some(SetColor) => SetColorOutcome(args)
      case Some(MapPanels) => MapPanelsOutcome(args)
      case Some(ResetAll) => Unfinished([])
  }

  /** `handle_set_color`: the `for offset in (0..len).step_by(2)` loop that
      parses each pair and pushes it behind the `L` tag. */
  method HandleSetColor(args: seq<Byte>) returns (r: Outcome)
    ensures r == SetColorOutcome(args)
  {
    if |args| % 6 != 0 {
      return Reply(QUESTION);
    }
    var numColors := |args| / 6;
    if numColors > MAX_PANEL_SLOTS {
      return Reply(QUESTION);
    }
    var packet := [ASCII_L];
    var offset := 0;
    while offset < |args|
      invariant 0 <= offset <= |args| && offset % 2 == 0
      invariant |packet| == 1 + offset / 2 <= PACKET_CAPACITY
      invariant packet[0] == ASCII_L
      invariant forall k :: 0 <= k < offset / 2 ==> Pair(args, k) == Some(packet[1 + k])
    {
      var b := ParseHexByte(args[offset..offset + 2]);
      assert b == Pair(args, offset / 2);
      if b.None? {
        return Reply(QUESTION);
      }
      if |packet| == PACKET_CAPACITY {
        // every pair but the last was valid; the last decides
        assert offset + 2 == |args|;
        return Panics;
      }
      packet := packet + [b.value];
      offset := offset + 2;
    }
    assert packet == [ASCII_L] + DecodedPairs(args);
    return Sends(packet);
  }

  /** `handle_map_panels`: one id per pair, pushed into a 32-entry vector
      that the length check keeps from overflowing. */
  method HandleMapPanels(args: seq<Byte>) returns (r: Outcome)
    ensures r == MapPanelsOutcome(args)
  {
    if |args| % 2 != 0 || |args| > MAX_PANEL_SLOTS * 2 {
      return Reply([]);
    }
    var slots: seq<Byte> := [];
    var numPanels := |args| / 2;
    var i := 0;
    while i < numPanels
      invariant 0 <= i <= numPanels && |slots| == i <= MAX_PANEL_SLOTS
      invariant forall k :: 0 <= k < i ==> Pair(args, k) == Some(slots[k])
    {
      var offset := i * 2;
      var id := ParseHexByte(args[offset..offset + 2]);
      assert id == Pair(args, i);
      if id.None? {
        return Reply([]);
      }
      slots := slots + [id.value];
      i := i + 1;
    }
    assert slots == DecodedPairs(args);
    return Unfinished(slots);
  }

  /** `handle_command`: dispatch on the first byte. */
  method HandleCommand(line: seq<Byte>, version: seq<Byte>) returns (r: Outcome)
    ensures r == CommandOutcome(line, version)
  {
    if |line| == 0 {
      return Reply([]);
    }
    var args := line[1..];
    var cmd := CommandFromByte(line[0]);
    match cmd {
      case None => return Reply(QUESTION);
      case Some(DefaultMode) => return DefaultModeOutcome(args);
      case Some(Version) => return VersionOutcome(version);
      case Some(Enumerate) => return Unfinished([]);
      case Some(SetColor) => r := HandleSetColor(args);
      case Some(MapPanels) => r := HandleMapPanels(args);
      case Some(ResetAll) => return Unfinished([]);
    }
  }

  // ---------------------------------------------------------------------
  // Properties

  /** `parse_hex_byte("ff") == Some(255)`, `parse_hex_byte("fg") == None`,
      `parse_hex_byte("f") == None`. */
  lemma ParseHexByteExamples()
    ensures ParseHexByte([102, 102]) == Some(255)
    ensures ParseHexByte([102, 103]) == None
    ensures ParseHexByte([102]) == None
  {
  }

  /** An empty line gets an empty reply; a line whose first byte is no
      command gets "?", whatever the arguments. */
  lemma UnknownCommands(line: seq<Byte>, version: seq<Byte>)
    requires line == [] || line[0] !in {ASCII_D, ASCII_V, ASCII_E, ASCII_L, ASCII_M, ASCII_R}
    ensures CommandOutcome(line, version) == if line == [] then Reply([]) else Reply(QUESTION)
  {
  }

  /** A line starting with `D` goes to `handle_default_mode` with the rest. */
  lemma DefaultModeDispatch(args: seq<Byte>, version: seq<Byte>)
    ensures CommandOutcome([ASCII_D] + args, version) == DefaultModeOutcome(args)
  {
    assert ([ASCII_D] + args)[0] == ASCII_D && ([ASCII_D] + args)[1..] == args;
  }

  /** `D` restarts exactly for a single argument `M`, `P` or `S`, with that
      mode persisted; anything else is answered with the error text. */
  lemma DefaultModeExactlyOneLetter(args: seq<Byte>, version: seq<Byte>)
    ensures var r := CommandOutcome([ASCII_D] + args, version);
      && (r.Restarts? <==> |args| == 1 && args[0] in {ASCII_M, ASCII_P, ASCII_S})
      && (r.Restarts? ==> ModeToRaw(r.persisted) == if args[0] == ASCII_M then 1 else if args[0] == ASCII_P then 2 else 3)
      && (!r.Restarts? ==> r == Reply(ERROR_EXPECTED_MODE))
  {
    DefaultModeDispatch(args, version);
  }

  /** `V` answers the version whatever its arguments, so asking twice
      gives the same answer. */
  lemma VersionIgnoresArguments(args1: seq<Byte>, args2: seq<Byte>, version: seq<Byte>)
    requires |version| <= REPLY_BUF_LEN
    ensures CommandOutcome([ASCII_V] + args1, version) == Reply(version)
    ensures CommandOutcome([ASCII_V] + args1, version) == CommandOutcome([ASCII_V] + args2, version)
  {
  }

  /** `L` answers "?" for a length that is not whole colours, for more than
      32 colours and for any invalid hex pair. */
  lemma SetColorRejections(args: seq<Byte>, version: seq<Byte>)
    requires |args| % 6 != 0 || |args| / 6 > MAX_PANEL_SLOTS || !AllPairsValid(args)
    ensures CommandOutcome([ASCII_L] + args, version) == Reply(QUESTION)
  {
    assert ([ASCII_L] + args)[1..] == args;
  }

  /** A line starting with `L` goes to `handle_set_color` with the rest. */
  lemma SetColorDispatch(args: seq<Byte>, version: seq<Byte>)
    ensures CommandOutcome([ASCII_L] + args, version) == SetColorOutcome(args)
  {
    assert ([ASCII_L] + args)[0] == ASCII_L && ([ASCII_L] + args)[1..] == args;
  }

  /** `L` with 1 to 31 colours given in hex sends the tag `L` followed by
      the colour bytes in argument order. */
  lemma SetColorSendsPacket(bytes: seq<Byte>, version: seq<Byte>)
    requires |bytes| % 3 == 0 && |bytes| / 3 < MAX_PANEL_SLOTS
    ensures CommandOutcome([ASCII_L] + HexOf(bytes), version) == Sends([ASCII_L] + bytes)
  {
    var args := HexOf(bytes);
    var n := |bytes| / 3;
    assert |bytes| == 3 * n;
    assert |args| == 6 * n;
    WholeColours(n);
    assert |args| % 6 == 0 && |args| / 6 == n && 1 + |args| / 2 <= PACKET_CAPACITY;
    HexOfDecodes(bytes);
    assert SetColorOutcome(args) == Sends([ASCII_L] + bytes);
    SetColorDispatch(args, version);
  }

  /** The lengths of `n` colours in hex. */
  lemma WholeColours(n: nat)
    ensures (6 * n) % 6 == 0 && (6 * n) / 6 == n && (6 * n) / 2 == 3 * n
  {
  }

  /** FINDING, as written: the packet holds 96 bytes but needs one more
      for its tag, so 32 well-formed colours, which the length check lets
      through, make `push(..).unwrap()` panic. */
  lemma SetColorPanicsAtThirtyTwo(bytes: seq<Byte>, version: seq<Byte>)
    requires |bytes| == 3 * MAX_PANEL_SLOTS
    ensures CommandOutcome([ASCII_L] + HexOf(bytes), version) == Panics
  {
    var args := HexOf(bytes);
    assert ([ASCII_L] + args)[1..] == args;
    HexOfDecodes(bytes);
    WholeColours(MAX_PANEL_SLOTS);
  }

  /** The set-colour handling with room for the tag byte as well,
      `Vec<u8, { 1 + MAX_PANEL_SLOTS * 3 }>`. */
  function CorrectedSetColorOutcome(args: seq<Byte>): Outcome
  {
    if |args| % 6 != 0 || |args| / 6 > MAX_PANEL_SLOTS then Reply(QUESTION)
    else if !AllPairsValid(args) then Reply(QUESTION)
    else if 1 + |args| / 2 > 1 + PACKET_CAPACITY then Panics
    else Sends([ASCII_L] + DecodedPairs(args))
  }

  /** With the larger packet no input panics: every argument string is
      either answered "?" or sent, with all of its colours, up to 32. */
  lemma CorrectedSetColorNeverPanics(args: seq<Byte>)
    ensures var r := CorrectedSetColorOutcome(args);
      && (r.Reply? || r.Sends?)
      && (r.Sends? <==> |args| % 6 == 0 && |args| / 6 <= MAX_PANEL_SLOTS && AllPairsValid(args))
      && (r.Sends? ==> |r.packet| == 1 + 3 * (|args| / 6) && r.packet[1..] == DecodedPairs(args))
  {
  }

  /** In particular, 32 colours are sent. */
  lemma CorrectedSetColorSendsThirtyTwo(bytes: seq<Byte>)
    requires |bytes| == 3 * MAX_PANEL_SLOTS
    ensures CorrectedSetColorOutcome(HexOf(bytes)) == Sends([ASCII_L] + bytes)
  {
    HexOfDecodes(bytes);
    WholeColours(MAX_PANEL_SLOTS);
  }

  /** `M` answers nothing for an odd length, more than 64 hex digits or
      invalid hex; otherwise it decodes one id per pair, in order. */
  lemma MapPanelsDecodesIds(args: seq<Byte>, version: seq<Byte>)
    ensures var r := CommandOutcome([ASCII_M] + args, version);
      && (r == Reply([]) <==> |args| % 2 != 0 || |args| > 64 || !AllPairsValid(args))
      && (r.Unfinished? ==>
            && |r.decoded| == |args| / 2
            && forall k :: 0 <= k < |r.decoded| ==> Pair(args, k) == Some(r.decoded[k]))
  {
    assert ([ASCII_M] + args)[1..] == args;
  }

  /** The upper-case hex of the ids 4, 8 and 10. */
  lemma HexOfExampleIds()
    ensures HexOf([4, 8, 10]) == [48, 52, 48, 56, 48, 65]
  {
    var a := HexOf([4, 8, 10]);
    assert |a| == 6;
    assert a[0] == 48 && a[1] == 52 && a[2] == 48 && a[3] == 56 && a[4] == 48 && a[5] == 65;
  }

  /** `M04080A` decodes the ids 4, 8 and 10. */
  lemma MapPanelsExample(version: seq<Byte>)
    ensures CommandOutcome([ASCII_M, 48, 52, 48, 56, 48, 65], version) == Unfinished([4, 8, 10])
  {
    var args: seq<Byte> := [48, 52, 48, 56, 48, 65];
    HexOfDecodes([4, 8, 10]);
    HexOfExampleIds();
    assert AllPairsValid(args) && DecodedPairs(args) == [4, 8, 10];
    assert [ASCII_M, 48, 52, 48, 56, 48, 65][1..] == args;
  }
}
