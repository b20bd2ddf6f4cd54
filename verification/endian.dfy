/** Conversion between a 32-bit word and its four-byte network (big-endian)
    representation. */
module Endian {
  import opened Common

  /** The word the four bytes `b0 b1 b2 b3` stand for in big-endian order. */
  function BigEndian(b0: byte, b1: byte, b2: byte, b3: byte): int
  {
    ((b0 * 0x100 + b1) * 0x100 + b2) * 0x100 + b3
  }

  /** `endian_u32_to_network`: the four bytes of `value`, most significant
      first. */
  function ToNetwork(value: u32): (b: seq<byte>)
    ensures |b| == 4
    ensures BigEndian(b[0], b[1], b[2], b[3]) == value
  {
    var v1 := value / 0x100;
    var v2 := v1 / 0x100;
    [v2 / 0x100, v2 % 0x100, v1 % 0x100, value % 0x100]
  }

  /** `endian_u32_to_network` on a caller's buffer: it stores into the first
      four bytes and leaves the rest alone. */
  function Store(value: u32, buffer: seq<byte>): (r: seq<byte>)
    requires |buffer| >= 4
    ensures |r| == |buffer| && r[..4] == ToNetwork(value) && r[4..] == buffer[4..]
  {
    ToNetwork(value) + buffer[4..]
  }

  /** `endian_u32_from_network`: the word the first four bytes of `buffer`
      encode, most significant first. */
  function FromNetwork(buffer: seq<byte>): u32
    requires |buffer| >= 4
  {
    BigEndian(buffer[0], buffer[1], buffer[2], buffer[3])
  }

  /** Two byte strings that encode the same word agree byte for byte. */
  lemma BigEndianInjective(a: seq<byte>, b: seq<byte>)
    requires |a| == 4 && |b| == 4
    requires BigEndian(a[0], a[1], a[2], a[3]) == BigEndian(b[0], b[1], b[2], b[3])
    ensures a == b
  {
    Digit((a[0] as int * 0x100 + a[1]) * 0x100 + a[2], a[3], (b[0] as int * 0x100 + b[1]) * 0x100 + b[2], b[3]);
    Digit(a[0] as int * 0x100 + a[1], a[2], b[0] as int * 0x100 + b[1], b[2]);
    Digit(a[0], a[1], b[0], b[1]);
  }

  /** The last digit of a base-256 number, and the number it follows, are
      determined by the number. */
  lemma Digit(x: int, d: byte, y: int, e: byte)
    requires x * 0x100 + d == y * 0x100 + e
    ensures x == y && d == e
  {
  }

  /** Decoding what was encoded gives the word back. */
  lemma FromToNetwork(value: u32)
    ensures FromNetwork(ToNetwork(value)) == value
  {
  }

  /** Encoding what was decoded gives the four bytes back. */
  lemma ToFromNetwork(buffer: seq<byte>)
    requires |buffer| == 4
    ensures ToNetwork(FromNetwork(buffer)) == buffer
  {
    BigEndianInjective(ToNetwork(FromNetwork(buffer)), buffer);
  }

  /** Decoding reads nothing beyond the first four bytes. */
  lemma FromNetworkPrefix(buffer: seq<byte>)
    requires |buffer| >= 4
    ensures FromNetwork(buffer) == FromNetwork(buffer[..4])
  {
  }
}
