/** Types shared by the wand model: bytes, optional values, and the Python
    exceptions the modelled code can raise. */
module Common {

  /** One octet of a BLE payload. */
  type Byte = x: int | 0 <= x < 256

  datatype Option<+T> = None | Some(value: T)

  /** The Python exception a modelled operation raises. */
  datatype PyError =
    | IndexError       // indexing an empty payload (`data[0]`)
    | ValueError       // `int(..., 16)` on a malformed colour, `bytes([v])` with v outside 0..255
    | AssertionError   // `scan` called with no selector

  datatype Result<+T> = Ok(value: T) | Err(error: PyError)
}
