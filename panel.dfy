/** The Panel board's message dispatcher (src/panel.rs): the slot that a
    `MapPanels` broadcast assigns to this board, and the reply each
    message calls for. The PIR inputs and the boot counter are read by the
    firmware from pins and from RAM; here they are parameters. */
module PanelNode {
  import opened Base
  import opened Protocol

  /** `get_pirs`: PIR1 in bit 0, PIR2 in bit 1. */
  function GetPirs(pir1: bool, pir2: bool): (r: Byte)
    ensures r < 4
    ensures r % 2 == 1 <==> pir1
    ensures r / 2 == 1 <==> pir2
    ensures r == 0 <==> !pir1 && !pir2
  {
    (if pir1 then 1 else 0) + (if pir2 then 2 else 0)
  }

  /** The position of the first `id` equal to `address`. */
  function FirstIndexOf(ids: seq<Byte>, address: Byte): (r: Option<nat>)
    ensures r.None? <==> address !in ids
    ensures r.Some? ==> r.value < |ids| && ids[r.value] == address && address !in ids[..r.value]
  {
    if ids == [] then None
    else if ids[0] == address then Some(0)
    else match FirstIndexOf(ids[1..], address)
      case None => None
      case Some(k) =>
        assert ids[..k + 1] == [ids[0]] + ids[1..][..k];
        Some(k + 1)
  }

  /** `i as u8`: the index truncated to a byte. */
  function AsU8(i: nat): (b: Byte)
    ensures i < 256 ==> b == i
  {
    i % 256
  }

  /** How `handle_message` ends: with an optional reply, or by resetting
      the board (`sys_reset` after a `Reset` message). */
  datatype Handled = Replied(reply: Option<Message>) | Resets

  /** `my_slot` after `msg`: only `MapPanels` changes it. */
  function NextSlot(mySlot: Option<Byte>, myAddress: Byte, msg: Message): Option<Byte>
  {
    match msg
    case MapPanels(ids) =>
      (match FirstIndexOf(ids, myAddress)
       case Some(i) => Some(AsU8(i))
       case None => None)
    case _ => mySlot
  }

  /** What `handle_message` answers, from the slot held before the message
      and the PIR mask the pins give. */
  function Response(mySlot: Option<Byte>, myAddress: Byte, msg: Message, pirs: Byte, bootCount: Byte): Handled
  {
    match msg
    case SetColors(slots) =>
      if mySlot.Some? && mySlot.value < |slots| && pirs != 0 then Replied(Some(SetColorReply(pirs)))
      else Replied(None)
    case MapPanels(ids) =>
      (match FirstIndexOf(ids, myAddress)
       case Some(i) => Replied(Some(MapPanelReply(AsU8(i))))
       case None => Replied(None))
    case Ping => Replied(Some(Enumerate(bootCount, 0)))
    case Reset => Resets
    case _ => Replied(None)
  }

  class Panel {
    const myAddress: Byte
    var mySlot: Option<Byte>

    /** `Panel::new`: the board starts unmapped. */
    constructor (myAddress: Byte)
      ensures this.myAddress == myAddress && mySlot == None
    {
      this.myAddress := myAddress;
      mySlot := None;
    }

    /** `handle_message(from, msg)` with the PIR pins read as `pir1` and
        `pir2` and `get_boot_count()` as `bootCount`. */
    method HandleMessage(from: Byte, msg: Message, pir1: bool, pir2: bool, bootCount: Byte)
      returns (h: Handled)
      modifies this
      ensures mySlot == NextSlot(old(mySlot), myAddress, msg)
      ensures h == Response(old(mySlot), myAddress, msg, GetPirs(pir1, pir2), bootCount)
    {
      match msg {
        case SetColors(slots) =>
          if mySlot.Some? && mySlot.value < |slots| {
            // the slot's colour goes to the LEDs, which this model leaves out
            var pirs := GetPirs(pir1, pir2);
            if pirs != 0 {
              return Replied(Some(SetColorReply(pirs)));
            }
          }
          return Replied(None);
        case MapPanels(ids) =>
          var i := 0;
          while i < |ids|
            invariant 0 <= i <= |ids|
            invariant myAddress !in ids[..i]
            invariant mySlot == old(mySlot)
          {
            if ids[i] == myAddress {
              FirstMatchIsFirstIndex(ids, myAddress, i);
              mySlot := Some(AsU8(i));
              return Replied(Some(MapPanelReply(AsU8(i))));
            }
            assert ids[..i + 1] == ids[..i] + [ids[i]];
            i := i + 1;
          }
          assert ids[..i] == ids;
          mySlot := None;
          return Replied(None);
        case Ping =>
          return Replied(Some(Enumerate(bootCount, 0)));
        case Reset =>
          return Resets;
        case SetStatus(status) =>
          // the status LEDs are left out
          return Replied(None);
        case _ =>
          return Replied(None);
      }
    }
  }

  /** A scan that finds `address` at `i` after missing it before has found
      its first occurrence. */
  lemma FirstMatchIsFirstIndex(ids: seq<Byte>, address: Byte, i: nat)
    requires i < |ids| && ids[i] == address && address !in ids[..i]
    ensures FirstIndexOf(ids, address) == Some(i)
  {
    assert address in ids by { assert ids[i] == address; }
    var k := FirstIndexOf(ids, address).value;
    assert forall j :: 0 <= j < i ==> ids[j] != address by {
      forall j | 0 <= j < i ensures ids[j] != address { assert ids[..i][j] == ids[j]; }
    }
    assert forall j :: 0 <= j < k ==> ids[j] != address by {
      forall j | 0 <= j < k ensures ids[j] != address { assert ids[..k][j] == ids[j]; }
    }
  }

  /** `MapPanels` maps the board to the first position holding its address
      and answers with that slot; earlier occurrences win over later ones. */
  lemma MapPanelsTakesFirstOccurrence(mySlot: Option<Byte>, myAddress: Byte, pre: seq<Byte>, post: seq<Byte>,
                                      pirs: Byte, bootCount: Byte)
    requires myAddress !in pre && |pre| < 256
    ensures var msg := MapPanels(pre + [myAddress] + post);
      && NextSlot(mySlot, myAddress, msg) == Some(|pre|)
      && Response(mySlot, myAddress, msg, pirs, bootCount) == Replied(Some(MapPanelReply(|pre|)))
  {
    var ids := pre + [myAddress] + post;
    assert ids[..|pre|] == pre;
    FirstMatchIsFirstIndex(ids, myAddress, |pre|);
  }

  /** `MapPanels` without the board's address unmaps it and sends nothing. */
  lemma MapPanelsWithoutMeUnmaps(mySlot: Option<Byte>, myAddress: Byte, ids: seq<Byte>, pirs: Byte, bootCount: Byte)
    requires myAddress !in ids
    ensures NextSlot(mySlot, myAddress, MapPanels(ids)) == None
    ensures Response(mySlot, myAddress, MapPanels(ids), pirs, bootCount) == Replied(None)
  {
  }

  /** After `MapPanels` the board is mapped exactly when its address was
      listed, and then its slot holds its address. */
  lemma MappedIffListed(mySlot: Option<Byte>, myAddress: Byte, ids: seq<Byte>)
    requires |ids| <= 256
    ensures var s := NextSlot(mySlot, myAddress, MapPanels(ids));
      && (s.Some? <==> myAddress in ids)
      && (s.Some? ==> s.value < |ids| && ids[s.value] == myAddress)
  {
  }

  /** A mapped board answers `SetColors` exactly when the message has an
      entry for its slot and a PIR is active, and then reports the PIRs. */
  lemma SetColorsReplyExactly(mySlot: Option<Byte>, myAddress: Byte, slots: seq<Rgb>, pir1: bool, pir2: bool,
                              bootCount: Byte)
    ensures var h := Response(mySlot, myAddress, SetColors(slots), GetPirs(pir1, pir2), bootCount);
      && h.Replied?
      && (h.reply.Some? <==> mySlot.Some? && mySlot.value < |slots| && (pir1 || pir2))
      && (h.reply.Some? ==> h.reply.value == SetColorReply(GetPirs(pir1, pir2)))
  {
  }

  /** `Ping` is always answered with the boot count and an RSSI of 0. */
  lemma PingAlwaysAnswered(mySlot: Option<Byte>, myAddress: Byte, pirs: Byte, bootCount: Byte)
    ensures Response(mySlot, myAddress, Ping, pirs, bootCount) == Replied(Some(Enumerate(bootCount, 0)))
    ensures NextSlot(mySlot, myAddress, Ping) == mySlot
  {
  }

  /** Only `MapPanels` changes the slot; `SetStatus`, `Test` and the reply
      kinds are not answered. */
  lemma OnlyMapPanelsChangesSlot(mySlot: Option<Byte>, myAddress: Byte, msg: Message, pirs: Byte, bootCount: Byte)
    requires !msg.MapPanels?
    ensures NextSlot(mySlot, myAddress, msg) == mySlot
    ensures msg.SetStatus? || msg.Test? || msg.SetColorReply? || msg.MapPanelReply? || msg.Enumerate? ==>
      Response(mySlot, myAddress, msg, pirs, bootCount) == Replied(None)
  {
  }

  /** A board with address 8 receiving `MapPanels [4, 8, 10]` takes slot 1
      and answers it; a following 18-byte set-colours payload then gives it
      bytes 3 to 5 as its colour. */
  lemma SlotOneScenario(pirs: Byte, bootCount: Byte, payload: seq<Byte>)
    requires |payload| == 18
    ensures NextSlot(None, 8, MapPanels([4, 8, 10])) == Some(1)
    ensures Response(None, 8, MapPanels([4, 8, 10]), pirs, bootCount) == Replied(Some(MapPanelReply(1)))
    ensures var slots := GroupRgb(payload);
      1 < |slots| && slots[1] == Rgb(payload[3], payload[4], payload[5])
  {
    MapPanelsTakesFirstOccurrence(None, 8, [4], [10], pirs, bootCount);
    assert [4] + [8] + [10] == [4, 8, 10];
  }
}
