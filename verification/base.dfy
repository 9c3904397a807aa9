/** Types shared by every driver of the weather station: the platform's
    error codes and an optional value for C's nullable pointers. */
module Base {

  /** The numeric values of the `esp_err_t` codes named below: ESP_OK,
      ESP_FAIL, ESP_ERR_TIMEOUT, ESP_ERR_INVALID_CRC,
      ESP_ERR_NVS_NO_FREE_PAGES and ESP_ERR_NVS_NEW_VERSION_FOUND. Any other
      code is an `OtherCode`, so no code has two representations. */
  type OtherCode = c: int | c != 0 && c != -1 && c != 0x107 && c != 0x109 && c != 0x110d && c != 0x1110
    witness 0x101

  /** The `esp_err_t` codes this firmware produces or tests for. Codes the
      firmware only passes through unchanged are kept as `ErrOther`. */
  datatype EspErr =
    | EspOk
    | EspFail
    | ErrTimeout
    | ErrInvalidCrc
    | ErrNvsNoFreePages
    | ErrNvsNewVersionFound
    | ErrOther(code: OtherCode)

  /** The number an `esp_err_t` carries. */
  function Code(e: EspErr): (c: int)
    ensures c == 0 <==> e == EspOk
  {
    match e
    case EspOk => 0
    case EspFail => -1
    case ErrTimeout => 0x107
    case ErrInvalidCrc => 0x109
    case ErrNvsNoFreePages => 0x110d
    case ErrNvsNewVersionFound => 0x1110
    case ErrOther(c) => c
  }

  /** Distinct codes are distinct numbers: comparing `esp_err_t` values as
      the C code does agrees with comparing them here. */
  lemma CodeInjective(a: EspErr, b: EspErr)
    ensures Code(a) == Code(b) <==> a == b
  {
  }

  /** A C pointer that may be NULL. */
  datatype Option<T> = None | Some(value: T)

  /** An unsigned 8-bit quantity used as a number (duty cycles, sensor bytes). */
  type Byte = x: int | 0 <= x < 256

  /** The range of a 32-bit C `int`. */
  predicate IsInt32(n: int) {
    -0x8000_0000 <= n < 0x8000_0000
  }
}
