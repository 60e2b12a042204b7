/** Values shared by the whole model: octets, IPv4 addresses, and the
    success-or-error results that stand for the exceptions the program throws. */
module Types {

  /** One octet of an address, as a bit pattern. */
  type Octet = bv8

  /** A `byte` used as a number (a prefix length). */
  type byte = n: int | 0 <= n < 256

  /** An IPv4 address as `IPAddress.GetAddressBytes` gives it: four octets,
      the most significant (the first of the dotted quad) first. */
  type Address = s: seq<Octet> | |s| == 4 witness [0, 0, 0, 0]

  datatype Option<+T> = None | Some(value: T)

  datatype Result<+T, +E> = Ok(value: T) | Err(error: E)

  /** The exceptions a token can raise. */
  datatype Error =
    | InvalidSyntax              // "Invalid address range syntax"
    | InvalidAddress(text: string)  // IPAddress.Parse rejected the text
    | InvalidByte(text: string)     // byte.Parse rejected the text
    | InvalidMask(mask: Address)    // "Invalid mask: {address}"
}
