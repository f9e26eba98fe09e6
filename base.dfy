/** Byte sequences and the Option wrapper shared by the vault's modules. */
module Base {

  /** One octet, as held in a Node.js Buffer. */
  type byte = b: int | 0 <= b < 256

  type Bytes = seq<byte>

  datatype Option<+T> = None | Some(value: T)

  /** The smaller of two integers. */
  function Min(a: int, b: int): (r: int)
  {
    if a <= b then a else b
  }
}
