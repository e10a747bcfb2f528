/** The inter-board message layer `[from, tag, payload...]`: `Message::parse`
    and `Message::serialize`, which src/master.rs and src/panel.rs each carry
    as identical copies. The `unsafe` reinterpretation of the payload as
    `SetColorSlot`s or `MapPanelSlot`s is modelled as explicit grouping:
    three bytes per RGB slot and one byte per id. */
module Protocol {
  import opened Base

  /** `comm::MAX_PAYLOAD_SIZE`: the capacity of a serialised message. */
  const MAX_PAYLOAD_SIZE: nat := 64
  /** `comm::BROADCAST_ADDRESS`. */
  const BROADCAST_ADDRESS: Byte := 0xFF

  /** The one-byte wire tags. */
  const TAG_SET_COLORS: Byte := 67         // b'C'
  const TAG_MAP_PANELS: Byte := 77         // b'M'
  const TAG_PING: Byte := 80               // b'P'
  const TAG_RESET: Byte := 82              // b'R'
  const TAG_SET_STATUS: Byte := 83         // b'S'
  const TAG_TEST: Byte := 95               // b'_'
  const TAG_SET_COLOR_REPLY: Byte := 99    // b'c'
  const TAG_MAP_PANEL_REPLY: Byte := 109   // b'm'
  const TAG_ENUMERATE: Byte := 73          // b'I'

  /** `SetColorSlot { r, g, b }`, three bytes in memory order. */
  datatype Rgb = Rgb(r: Byte, g: Byte, b: Byte)

  datatype Message =
    // Master -> Panel
    | SetColors(slots: seq<Rgb>)
    | MapPanels(ids: seq<Byte>)
    | Ping
    | Reset
    | SetStatus(status: Byte)
    | Test(payloadSize: Byte)
    // Panel -> Master
    | SetColorReply(pirs: Byte)
    | MapPanelReply(slot: Byte)
    | Enumerate(bootCount: Byte, rssi: Byte)

  /** The slots a payload holds: one per whole three bytes, trailing bytes
      ignored. */
  function GroupRgb(payload: seq<Byte>): (slots: seq<Rgb>)
    ensures |slots| == |payload| / 3
    ensures forall k :: 0 <= k < |slots| ==>
      slots[k] == Rgb(payload[3 * k], payload[3 * k + 1], payload[3 * k + 2])
    decreases |payload|
  {
    if |payload| < 3 then []
    else [Rgb(payload[0], payload[1], payload[2])] + GroupRgb(payload[3..])
  }

  /** The bytes of a slot array. */
  function FlattenRgb(slots: seq<Rgb>): (bytes: seq<Byte>)
    ensures |bytes| == 3 * |slots|
    ensures forall k :: 0 <= k < |slots| ==>
      bytes[3 * k] == slots[k].r && bytes[3 * k + 1] == slots[k].g && bytes[3 * k + 2] == slots[k].b
  {
    if slots == [] then []
    else [slots[0].r, slots[0].g, slots[0].b] + FlattenRgb(slots[1..])
  }

  /** Grouping reads back exactly the slots that were flattened. */
  lemma {:induction false} GroupFlattenRoundTrip(slots: seq<Rgb>)
    ensures GroupRgb(FlattenRgb(slots)) == slots
  {
    if slots != [] {
      GroupFlattenRoundTrip(slots[1..]);
      assert FlattenRgb(slots)[3..] == FlattenRgb(slots[1..]);
    }
  }

  function Tag(m: Message): Byte
  {
    match m
    case SetColors(_) => TAG_SET_COLORS
    case MapPanels(_) => TAG_MAP_PANELS
    case Ping => TAG_PING
    case Reset => TAG_RESET
    case SetStatus(_) => TAG_SET_STATUS
    case Test(_) => TAG_TEST
    case SetColorReply(_) => TAG_SET_COLOR_REPLY
    case MapPanelReply(_) => TAG_MAP_PANEL_REPLY
    case Enumerate(_, _) => TAG_ENUMERATE
  }

  /** The payload bytes `serialize` appends after `[from, tag]`. */
  function PayloadBytes(m: Message): seq<Byte>
  {
    match m
    case SetColors(slots) => FlattenRgb(slots)
    case MapPanels(ids) => ids
    case Ping => []
    case Reset => []
    case SetStatus(status) => [status]
    case Test(size) => [size]
    case SetColorReply(pirs) => [pirs]
    case MapPanelReply(slot) => [slot]
    case Enumerate(bootCount, rssi) => [bootCount, rssi]
  }

  /** `Message::parse`. */
  function Parse(data: seq<Byte>): (r: Option<(Byte, Message)>)
    ensures |data| < 2 ==> r.None?
    ensures r.Some? ==> r.value.0 == data[0] && Tag(r.value.1) == data[1]
  {
    if |data| < 2 then None
    else
      var from, tag, payload := data[0], data[1], data[2..];
      if tag == TAG_SET_COLORS then Some((from, SetColors(GroupRgb(payload))))
      else if tag == TAG_MAP_PANELS then Some((from, MapPanels(payload)))
      else if tag == TAG_PING then Some((from, Ping))
      else if tag == TAG_RESET then Some((from, Reset))
      else if tag == TAG_SET_STATUS then
        if |payload| == 0 then None else Some((from, SetStatus(payload[0])))
      else if tag == TAG_TEST then Some((from, Test(if |payload| == 0 then 0 else payload[0])))
      else if tag == TAG_SET_COLOR_REPLY then
        if |payload| < 1 then None else Some((from, SetColorReply(payload[0])))
      else if tag == TAG_MAP_PANEL_REPLY then
        if |payload| < 1 then None else Some((from, MapPanelReply(payload[0])))
      else if tag == TAG_ENUMERATE then
        if |payload| < 2 then None else Some((from, Enumerate(payload[0], payload[1])))
      else None
  }

  /** `Message::serialize`: `[from, tag]` and then the payload, into a
      `Vec<u8, MAX_PAYLOAD_SIZE>`; `None` when it does not fit. */
  function Serialize(m: Message, from: Byte): (r: Option<seq<Byte>>)
    ensures r.Some? <==> 2 + |PayloadBytes(m)| <= MAX_PAYLOAD_SIZE
    ensures r.Some? ==> |r.value| >= 2 && r.value[0] == from && r.value[1] == Tag(m)
  {
    // the two header bytes always fit; the payload is appended all or nothing
    var header := [from, Tag(m)];
    if |header| + |PayloadBytes(m)| <= MAX_PAYLOAD_SIZE then Some(header + PayloadBytes(m)) else None
  }

  /** Which tags `parse` accepts. */
  lemma ParseRejectsUnknownTags(data: seq<Byte>)
    requires |data| >= 2
    requires data[1] !in {TAG_SET_COLORS, TAG_MAP_PANELS, TAG_PING, TAG_RESET, TAG_SET_STATUS,
                          TAG_TEST, TAG_SET_COLOR_REPLY, TAG_MAP_PANEL_REPLY, TAG_ENUMERATE}
    ensures Parse(data).None?
  {
  }

  /** The minimum payloads: `S`, `c` and `m` need one byte, `I` needs two,
      and a `_` without payload is a test of size 0. */
  lemma ParseMinimumPayloads(from: Byte, tag: Byte, payload: seq<Byte>)
    ensures tag in {TAG_SET_STATUS, TAG_SET_COLOR_REPLY, TAG_MAP_PANEL_REPLY} ==>
      (Parse([from, tag] + payload).Some? <==> |payload| >= 1)
    ensures tag == TAG_ENUMERATE ==> (Parse([from, tag] + payload).Some? <==> |payload| >= 2)
    ensures tag == TAG_TEST && payload == [] ==> Parse([from, tag]) == Some((from, Test(0)))
  {
    assert ([from, tag] + payload)[2..] == payload;
    assert [from, tag] + [] == [from, tag];
  }

  /** A set-colours payload yields one slot per whole three bytes,
      whatever trails them. */
  lemma ParseSetColorsIgnoresTrailingBytes(from: Byte, slots: seq<Rgb>, trailing: seq<Byte>)
    requires |trailing| < 3
    ensures Parse([from, TAG_SET_COLORS] + FlattenRgb(slots) + trailing) == Some((from, SetColors(slots)))
  {
    var bytes := FlattenRgb(slots);
    var data := [from, TAG_SET_COLORS] + bytes + trailing;
    var p := data[2..];
    assert p == bytes + trailing;
    assert |p| == 3 * |slots| + |trailing|;
    var g := GroupRgb(p);
    assert |g| == |slots|;
    forall k | 0 <= k < |slots|
      ensures g[k] == slots[k]
    {
      assert p[3 * k] == bytes[3 * k] && p[3 * k + 1] == bytes[3 * k + 1] && p[3 * k + 2] == bytes[3 * k + 2];
    }
    assert g == slots;
  }

  /** Round trip: whatever `serialize` produces, `parse` reads back as the
      same sender and message. */
  lemma ParseSerializeRoundTrip(m: Message, from: Byte)
    requires Serialize(m, from).Some?
    ensures Parse(Serialize(m, from).value) == Some((from, m))
  {
    var b := Serialize(m, from).value;
    assert b[2..] == PayloadBytes(m);
    if m.SetColors? {
      GroupFlattenRoundTrip(m.slots);
    }
  }

  /** The other direction: a parsed message of at most `MAX_PAYLOAD_SIZE`
      bytes serialises to a prefix of what was parsed (the bytes `parse`
      ignored are the only difference), except that a `_` without payload
      serialises with its implied size byte 0. */
  lemma SerializeParsePrefix(data: seq<Byte>)
    requires |data| <= MAX_PAYLOAD_SIZE && Parse(data).Some?
    ensures var (from, m) := Parse(data).value;
      && Serialize(m, from).Some?
      && (if data[1] == TAG_TEST && |data| == 2
          then Serialize(m, from).value == data + [0]
          else Serialize(m, from).value <= data)
  {
    var (from, m) := Parse(data).value;
    var payload := data[2..];
    assert data == [from, Tag(m)] + payload;
    var bytes := PayloadBytes(m);
    if m.SetColors? {
      assert m.slots == GroupRgb(payload);
      forall i | 0 <= i < |bytes|
        ensures bytes[i] == payload[i]
      {
        var k := i / 3;
        assert m.slots[k] == Rgb(payload[3 * k], payload[3 * k + 1], payload[3 * k + 2]);
        assert i == 3 * k || i == 3 * k + 1 || i == 3 * k + 2;
      }
    } else if m.Test? && |payload| == 0 {
      assert bytes == [0];
    } else if !m.MapPanels? {
      assert |bytes| <= |payload|;
      assert forall i :: 0 <= i < |bytes| ==> bytes[i] == payload[i];
    }
    assert (data[1] == TAG_TEST && |data| == 2) || bytes <= payload;
  }
}
