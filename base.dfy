/** Shared vocabulary of the firmware model: bytes, optional values and the
    board's operating mode. */
module Base {

  /** An unsigned 8-bit value (`u8`). */
  type Byte = x: int | 0 <= x < 256

  /** An unsigned 32-bit value (`u32`). */
  type U32 = x: int | 0 <= x < 0x1_0000_0000

  datatype Option<T> = None | Some(value: T)

  const NEWLINE: Byte := 10   // b'\n'

  /** ASCII codes of the command and tag letters used across the firmware. */
  const ASCII_C: Byte := 67   // b'C'
  const ASCII_D: Byte := 68   // b'D'
  const ASCII_E: Byte := 69   // b'E'
  const ASCII_I: Byte := 73   // b'I'
  const ASCII_L: Byte := 76   // b'L'
  const ASCII_M: Byte := 77   // b'M'
  const ASCII_P: Byte := 80   // b'P'
  const ASCII_R: Byte := 82   // b'R'
  const ASCII_S: Byte := 83   // b'S'
  const ASCII_V: Byte := 86   // b'V'
  const ASCII_UNDERSCORE: Byte := 95   // b'_'
  const ASCII_LOWER_C: Byte := 99   // b'c'
  const ASCII_LOWER_M: Byte := 109  // b'm'
  const ASCII_QUESTION: Byte := 63  // b'?'
  const ASCII_PLUS: Byte := 43      // b'+'
  const ASCII_CR: Byte := 13        // b'\r'

  /** The ASCII bytes of a string literal made of characters below 128. */
  function Ascii(s: string): (r: seq<Byte>)
    requires forall i :: 0 <= i < |s| ==> s[i] as int < 128
    ensures |r| == |s|
    ensures forall i :: 0 <= i < |r| ==> r[i] == s[i] as int
  {
    if s == [] then [] else [s[0] as int] + Ascii(s[1..])
  }

  /** The role a board runs in; `#[repr(u8)]` with Master = 1, Panel = 2, Spy = 3. */
  datatype Mode = Master | Panel | Spy

  function ModeToRaw(m: Mode): (r: Byte)
    ensures 1 <= r <= 3
  {
    match m
    case Master => 1
    case Panel => 2
    case Spy => 3
  }

  /** `Mode::try_from(u8)`: only the three discriminants decode. */
  function ModeFromRaw(raw: Byte): (r: Option<Mode>)
    ensures r.Some? <==> 1 <= raw <= 3
    ensures r.Some? ==> ModeToRaw(r.value) == raw
  {
    if raw == 1 then Some(Master)
    else if raw == 2 then Some(Panel)
    else if raw == 3 then Some(Spy)
    else None
  }
}
