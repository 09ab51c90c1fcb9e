// Small shared definitions: optional values, bytes and raw byte strings.

module Common {
  datatype Option<+T> = None | Some(value: T)

  // One octet. The C sources use unsigned char; values are kept as integers and the
  // masks and shifts of the sources are written as division and remainder.
  type Byte = x: int | 0 <= x < 256

  type Bytes = seq<Byte>

  // The bytes of an ASCII literal.
  function Ascii(s: string): (r: Bytes)
    ensures |r| == |s|
  {
    seq(|s|, i requires 0 <= i < |s| => s[i] as int % 256)
  }

  // A lower case hexadecimal digit.
  function HexDigit(n: nat): Byte
    requires n < 16
  {
    if n < 10 then 0x30 + n else 0x57 + n
  }

  // The size of the buffers that take a title's name.
  const NAME_MAX: nat := 128

  function Zeros(k: nat): (r: Bytes)
    ensures |r| == k
  {
    seq(k, _ => 0)
  }

  // The ranges of the sources' unsigned int and unsigned long long.
  const U32_LIMIT: nat := 0x1_0000_0000

  const U64_LIMIT: int := 0x1_0000_0000_0000_0000

  type U64 = x: int | 0 <= x < U64_LIMIT
}
