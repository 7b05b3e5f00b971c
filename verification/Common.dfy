/** Types shared by every part of the model: machine integers, optional values and error codes. */
module Common {

  // A C `uint8_t`.
  type byte = x: int | 0 <= x < 0x100

  const UINT32_MAX := 0xFFFF_FFFF

  // A C `uint32_t`; arithmetic on it is reduced modulo 2^32 where the firmware does not widen.
  type uint32 = x: int | 0 <= x < 0x1_0000_0000

  datatype Option<+T> = None | Some(value: T)

  // The `esp_err_t` values the update code tells apart.
  datatype EspErr =
    | EspOk
    | InvalidArg
    | InvalidSize
    | InvalidState
    | NotFound
    | NoMemory
    | EspFail
    | OtaProtocol
    | OtaChecksum

  datatype Result<+T> = Ok(value: T) | Err(error: EspErr)

  function Min(a: int, b: int): (m: int)
    ensures m <= a && m <= b && (m == a || m == b)
  {
    if a <= b then a else b
  }

  // What C code sees of a character buffer: everything before the first NUL.
  function CString(s: string): (c: string)
    ensures '\0' !in c
    ensures '\0' !in s ==> c == s
    ensures c <= s
  {
    if s == [] || s[0] == '\0' then [] else [s[0]] + CString(s[1..])
  }
}
