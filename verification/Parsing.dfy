/** Outcomes of decoding from a buffer. */
module Parsing {
  import opened Ber

  /** What was read and what follows it; an error code; or a datagram whose inner lengths the code
      trusts although they lead outside of the buffer or of a machine word. */
  datatype Parsed<T> = Ok(value: T, rest: Bytes) | Err(code: int) | Malformed

  type Reader<T> = Bytes -> Parsed<T>
}
