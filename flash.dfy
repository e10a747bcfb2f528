/** The persisted configuration of src/flash.rs: one option byte holding
    the board id and one (`Data1`) packing the default mode in bits 0-1 and
    the communication mode in bits 2-3. The option-byte registers are
    hardware; what they read is a parameter here, and what is written to
    them is recorded. */
module Flash {
  import opened Base

  /** `comm::CommMode`, a `#[repr(u8)]` enum; its discriminants are taken
      to be Radio = 1 and Serial = 2. */
  datatype CommMode = Radio | Serial

  function CommModeToRaw(m: CommMode): (r: Byte)
    ensures 1 <= r <= 2
  {
    match m
    case Radio => 1
    case Serial => 2
  }

  /** `CommMode::try_from(u8)`. */
  function CommModeFromRaw(raw: Byte): (r: Option<CommMode>)
    ensures r.Some? <==> 1 <= raw <= 2
    ensures r.Some? ==> CommModeToRaw(r.value) == raw
  {
    if raw == 1 then Some(Radio) else if raw == 2 then Some(Serial) else None
  }

  // ---------------------------------------------------------------------
  // The `Data1` bitfield

  /** `Data1(u8)`. */
  datatype Data1 = Data1(bits: bv8)

  /** `default_mode()`: bits 0-1. */
  function DefaultModeField(d: Data1): (r: Byte)
    ensures r < 4
    ensures r == (d.bits & 3) as int
  {
    (d.bits & 3) as int
  }

  /** `comm_mode()`: bits 2-3. */
  function CommModeField(d: Data1): (r: Byte)
    ensures r < 4
    ensures r == ((d.bits >> 2) & 3) as int
  {
    ((d.bits >> 2) & 3) as int
  }

  /** `set_default_mode(m)` on the bitfield: bits 0-1 become `m`, every
      other bit stays. */
  function WithDefaultMode(d: Data1, m: Byte): (r: Data1)
    requires m <= 3
    ensures DefaultModeField(r) == m
    ensures CommModeField(r) == CommModeField(d)
    ensures r.bits & 0xFC == d.bits & 0xFC
  {
    Data1((d.bits & 0xFC) | (m as bv8))
  }

  /** `set_comm_mode(m)` on the bitfield: bits 2-3 become `m`, every other
      bit stays. */
  function WithCommMode(d: Data1, m: Byte): (r: Data1)
    requires m <= 3
    ensures CommModeField(r) == m
    ensures DefaultModeField(r) == DefaultModeField(d)
    ensures r.bits & 0xF3 == d.bits & 0xF3
  {
    Data1((d.bits & 0xF3) | ((m as bv8) << 2))
  }

  /** `get_default_mode()`: the field as a `Mode`, Panel when it is not one. */
  function DefaultModeOf(d: Data1): (m: Mode)
    ensures 1 <= DefaultModeField(d) <= 3 ==> ModeToRaw(m) == DefaultModeField(d)
    ensures DefaultModeField(d) == 0 ==> m == Panel
  {
    match ModeFromRaw(DefaultModeField(d))
    case Some(m) => m
    case None => Panel
  }

  /** `get_comm_mode()`: the field as a `CommMode`, Radio when it is not one. */
  function CommModeOf(d: Data1): (m: CommMode)
    ensures CommModeFromRaw(CommModeField(d)).Some? ==> CommModeToRaw(m) == CommModeField(d)
    ensures CommModeFromRaw(CommModeField(d)).None? ==> m == Radio
  {
    match CommModeFromRaw(CommModeField(d))
    case Some(m) => m
    case None => Radio
  }

  /** The clean-up `UserBytes::get` applies to the `Data1` it reads: an
      invalid default mode becomes Panel, an invalid comm mode Radio. */
  function Sanitized(d: Data1): (r: Data1)
    ensures ModeFromRaw(DefaultModeField(r)).Some? && CommModeFromRaw(CommModeField(r)).Some?
    ensures ModeFromRaw(DefaultModeField(d)).Some? ==> DefaultModeField(r) == DefaultModeField(d)
    ensures ModeFromRaw(DefaultModeField(d)).None? ==> DefaultModeOf(r) == Panel
    ensures CommModeFromRaw(CommModeField(d)).Some? ==> CommModeField(r) == CommModeField(d)
    ensures CommModeFromRaw(CommModeField(d)).None? ==> CommModeOf(r) == Radio
    ensures DefaultModeOf(r) == DefaultModeOf(d) && CommModeOf(r) == CommModeOf(d)
  {
    var d1 := if ModeFromRaw(DefaultModeField(d)).None? then WithDefaultMode(d, ModeToRaw(Panel)) else d;
    if CommModeFromRaw(CommModeField(d1)).None? then WithCommMode(d1, CommModeToRaw(Radio)) else d1
  }

  /** Persisting a mode and reading it back gives that mode. */
  lemma DefaultModeRoundTrip(d: Data1, m: Mode)
    ensures DefaultModeOf(WithDefaultMode(d, ModeToRaw(m))) == m
    ensures CommModeOf(WithDefaultMode(d, ModeToRaw(m))) == CommModeOf(d)
  {
  }

  lemma CommModeRoundTrip(d: Data1, m: CommMode)
    ensures CommModeOf(WithCommMode(d, CommModeToRaw(m))) == m
    ensures DefaultModeOf(WithCommMode(d, CommModeToRaw(m))) == DefaultModeOf(d)
  {
  }

  // ---------------------------------------------------------------------
  // Option-word programming

  /** `write_option_word`'s expected read-back `((!value) << 8) | value`
      of a 16-bit `value`. For a byte value the high byte is its
      complement. */
  function ExpectedOptionWord(value: bv16): (r: bv16)
    ensures value < 256 ==> r >> 8 == 255 - value && r & 0xFF == value
  {
    ((!value) << 8) | value
  }

  /** `write_option_word` returns normally exactly when the word read back
      is the expected one; otherwise it panics ("flash write failed"). The
      low byte read back is always the value's own; for a byte value
      (`data0 as u16`, `data1 as u16`) exactly one read-back passes, the
      one with the value's complement in the high byte. */
  function OptionWordWritten(value: bv16, readBack: bv16): (ok: bool)
    ensures ok ==> readBack & 0xFF == value & 0xFF
    ensures value < 256 ==> (ok <==> readBack & 0xFF == value && readBack >> 8 == 255 - value)
  {
    var expected := ExpectedOptionWord(value);
    assert expected == ((expected >> 8) << 8) | (expected & 0xFF);
    assert readBack == ((readBack >> 8) << 8) | (readBack & 0xFF);
    readBack == expected
  }

  // ---------------------------------------------------------------------
  // `UserBytes`

  /** How a setter ends. */
  datatype SetResult = Stored | Panics

  class UserBytes {
    /** `data0`: the board id. There is no setter: it is written back as read. */
    var id: Byte
    var data1: Data1
    /** The `(data0, data1)` pairs handed to `ob_write_data_bytes`, in order. */
    var written: seq<(Byte, Byte)>

    /** `UserBytes::get()` with the option bytes reading `idRaw` and
        `data1Raw`: the `data1` is cleaned up in place. */
    constructor Get(idRaw: Byte, data1Raw: Byte)
      ensures id == idRaw && data1 == Sanitized(Data1(data1Raw as bv8)) && written == []
    {
      id := idRaw;
      written := [];
      var d := Data1(data1Raw as bv8);
      if ModeFromRaw(DefaultModeField(d)).None? {
        d := WithDefaultMode(d, ModeToRaw(Panel));
      }
      if CommModeFromRaw(CommModeField(d)).None? {
        d := WithCommMode(d, CommModeToRaw(Radio));
      }
      data1 := d;
    }

    /** `init_user_configuration`: after a warm boot the cached bytes in
        `.noinit` RAM are kept; after a cold boot they are read afresh
        (`UserBytes::get()` with the option bytes reading `idRaw` and
        `data1Raw`). */
    method InitUserConfiguration(warmBoot: bool, idRaw: Byte, data1Raw: Byte)
      modifies this
      ensures warmBoot ==> id == old(id) && data1 == old(data1)
      ensures !warmBoot ==> id == idRaw && data1 == Sanitized(Data1(data1Raw as bv8))
      ensures written == old(written)
    {
      if !warmBoot {
        var read := new UserBytes.Get(idRaw, data1Raw);
        id := read.id;
        data1 := read.data1;
      }
    }

    /** `get_id`. */
    function GetId(): (r: Byte)
      reads this
      ensures r == id
    {
      id
    }

    /** `write()`: the id and the packed byte go to the option bytes. */
    method Write()
      modifies this
      ensures id == old(id) && data1 == old(data1) && written == old(written) + [(id, data1.bits as int)]
    {
      var packed: Byte := data1.bits as int;
      written := written + [(id, packed)];
    }

    /** `UserBytes::set_default_mode(mode)`: panics above 3, else stores
        the field and writes both bytes. */
    method SetDefaultMode(mode: Byte) returns (r: SetResult)
      modifies this
      ensures r == Stored <==> mode <= 3
      ensures id == old(id)
      ensures r == Panics ==> data1 == old(data1) && written == old(written)
      ensures r == Stored ==>
        && data1 == WithDefaultMode(old(data1), mode)
        && written == old(written) + [(id, data1.bits as int)]
    {
      if mode > 3 {
        return Panics;
      }
      data1 := WithDefaultMode(data1, mode);
      Write();
      return Stored;
    }

    /** `UserBytes::set_comm_mode(mode)`. */
    method SetCommMode(mode: Byte) returns (r: SetResult)
      modifies this
      ensures r == Stored <==> mode <= 3
      ensures id == old(id)
      ensures r == Panics ==> data1 == old(data1) && written == old(written)
      ensures r == Stored ==>
        && data1 == WithCommMode(old(data1), mode)
        && written == old(written) + [(id, data1.bits as int)]
    {
      if mode > 3 {
        return Panics;
      }
      data1 := WithCommMode(data1, mode);
      Write();
      return Stored;
    }
  }

  /** `flash::set_default_mode(mode)`: a `Mode` is at most 3, so the
      setter never panics, and `get_default_mode()` then returns it while
      the comm mode and the id are kept. */
  method SetDefaultModeFromEnum(cache: UserBytes, mode: Mode)
    modifies cache
    ensures cache.id == old(cache.id)
    ensures DefaultModeOf(cache.data1) == mode
    ensures CommModeOf(cache.data1) == CommModeOf(old(cache.data1))
    ensures cache.written == old(cache.written) + [(cache.id, cache.data1.bits as int)]
  {
    var r := cache.SetDefaultMode(ModeToRaw(mode));
    DefaultModeRoundTrip(old(cache.data1), mode);
  }

  /** `flash::set_comm_mode(mode)`: likewise never panics, and
      `get_comm_mode()` then returns `mode` while the default mode and the
      id are kept. */
  method SetCommModeFromEnum(cache: UserBytes, mode: CommMode)
    modifies cache
    ensures cache.id == old(cache.id)
    ensures CommModeOf(cache.data1) == mode
    ensures DefaultModeOf(cache.data1) == DefaultModeOf(old(cache.data1))
    ensures cache.written == old(cache.written) + [(cache.id, cache.data1.bits as int)]
  {
    var r := cache.SetCommMode(CommModeToRaw(mode));
    CommModeRoundTrip(old(cache.data1), mode);
  }
}
