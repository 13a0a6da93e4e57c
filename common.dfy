/** Machine-level types shared by the whole model. */
module Common {

  /** One C `char`/byte of a page buffer or of the input line. */
  type byte = b: int | 0 <= b < 256

  const UINT32_LIMIT: nat := 0x1_0000_0000

  /** A C `uint32_t`. */
  type uint32 = x: int | 0 <= x < UINT32_LIMIT

  /** A possibly absent value; a page slot of the table is `None` until it is allocated. */
  datatype Option<+T> = None | Some(value: T)

  /** True if every byte of `s` is different from the NUL byte. */
  predicate NoNul(s: seq<byte>)
  {
    forall i :: 0 <= i < |s| ==> s[i] != 0
  }
}
