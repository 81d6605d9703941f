/** Bytes, C integer widths and byte order, as the wire formats of the dongle use them. */
module Bytes {

  datatype Option<+T> = None | Some(value: T)

  type Byte = x: int | 0 <= x < 0x100

  const U16 := 0x1_0000
  const U32 := 0x1_0000_0000

  type Word16 = x: int | 0 <= x < 0x1_0000
  type Word32 = x: int | 0 <= x < 0x1_0000_0000

  function Min(a: int, b: int): int {
    if a < b then a else b
  }

  function Zeros(n: nat): (z: seq<Byte>)
    ensures |z| == n && forall i :: 0 <= i < n ==> z[i] == 0
  {
    seq(n, _ => 0)
  }

  method Memcpy(to: array<Byte>, from: seq<Byte>, len: nat)
    requires len <= to.Length && len <= |from|
    modifies to
    ensures to[..] == from[..len] + old(to[..])[len..]
  {
    forall i | 0 <= i < len {
      to[i] := from[i];
    }
  }

  /** Little-endian bytes of a value: the format every FUNcube command uses. */
  function Le16(v: Word16): seq<Byte> {
    [v % 0x100, v / 0x100]
  }

  function FromLe16(b: seq<Byte>): Word16
    requires |b| == 2
  {
    b[0] as int + 0x100 * b[1] as int
  }

  function Le32(v: Word32): seq<Byte> {
    Le16(v % U16) + Le16(v / U16)
  }

  function FromLe32(b: seq<Byte>): Word32
    requires |b| == 4
  {
    FromLe16(b[..2]) + U16 * FromLe16(b[2..])
  }

  /** The bytes on the wire, lowest first. */
  lemma LeastFirst(v: Word16, w: Word32)
    ensures Le16(v) == [v % 0x100, v / 0x100]
    ensures Le32(w) == [w % 0x100, w / 0x100 % 0x100, w / 0x1_0000 % 0x100, w / 0x100_0000]
  {
    var b0: Byte, b1: Byte, b2: Byte, b3: Byte := w % U16 % 0x100, w % U16 / 0x100, w / U16 % 0x100, w / U16 / 0x100;
    Digits32(w, b0, b1, b2, b3);
  }

  lemma Le16RoundTrip(v: Word16)
    ensures FromLe16(Le16(v)) == v
  {
  }

  lemma Le32RoundTrip(v: Word32)
    ensures FromLe32(Le32(v)) == v
  {
    assert Le32(v)[..2] == Le16(v % U16) && Le32(v)[2..] == Le16(v / U16);
    Le16RoundTrip(v % U16);
    Le16RoundTrip(v / U16);
  }

  /** Byte order of the machine the library runs on. */
  datatype Host = LittleEndian | BigEndian

  /** How the machine lays a 16-bit or 32-bit variable out in memory, and how it reads it back. */
  function Store16(host: Host, v: Word16): seq<Byte> {
    match host
    case LittleEndian => Le16(v)
    case BigEndian => [v / 0x100, v % 0x100]
  }

  function Load16(host: Host, b: seq<Byte>): Word16
    requires |b| == 2
  {
    match host
    case LittleEndian => FromLe16(b)
    case BigEndian => b[1] as int + 0x100 * b[0] as int
  }

  function Store32(host: Host, v: Word32): seq<Byte> {
    match host
    case LittleEndian => Store16(host, v % U16) + Store16(host, v / U16)
    case BigEndian => Store16(host, v / U16) + Store16(host, v % U16)
  }

  function Load32(host: Host, b: seq<Byte>): Word32
    requires |b| == 4
  {
    match host
    case LittleEndian => Load16(host, b[..2]) + U16 * Load16(host, b[2..])
    case BigEndian => Load16(host, b[2..]) + U16 * Load16(host, b[..2])
  }

  /** convert_le_u16 and convert_le_u32: nothing on a little-endian host, a byte swap on the other. */
  function ConvertLe16(host: Host, v: Word16): Word16 {
    match host
    case LittleEndian => v
    case BigEndian => v / 0x100 + 0x100 * (v % 0x100)
  }

  function ConvertLe32(host: Host, v: Word32): Word32 {
    match host
    case LittleEndian => v
    case BigEndian =>
      v / 0x100_0000 + 0x100 * (v / 0x1_0000 % 0x100) + 0x1_0000 * (v / 0x100 % 0x100) + 0x100_0000 * (v % 0x100)
  }

  /** Converting and then storing puts little-endian bytes in memory on either host, and loading and then
      converting reads them back. */
  lemma Converts16(host: Host, v: Word16, b: seq<Byte>)
    requires |b| == 2
    ensures Store16(host, ConvertLe16(host, v)) == Le16(v)
    ensures ConvertLe16(host, Load16(host, b)) == FromLe16(b)
  {
  }

  /** The four bytes of a 32-bit value, lowest first. */
  lemma Digits32(v: Word32, b0: Byte, b1: Byte, b2: Byte, b3: Byte)
    requires v == b0 + 0x100 * b1 as int + 0x1_0000 * b2 as int + 0x100_0000 * b3 as int
    ensures v % 0x100 == b0 && v / 0x100 % 0x100 == b1 && v / 0x1_0000 % 0x100 == b2 && v / 0x100_0000 == b3
    ensures v % U16 == b0 + 0x100 * b1 as int && v / U16 == b2 + 0x100 * b3 as int
  {
    var hi: int := b2 + 0x100 * b3 as int;
    var lo: int := b0 + 0x100 * b1 as int;
    assert v == lo + 0x1_0000 * hi;
    assert v / 0x1_0000 == hi && v % 0x1_0000 == lo;
    assert v / 0x100 == b1 + 0x100 * hi;
  }

  lemma Converts32(host: Host, v: Word32, b: seq<Byte>)
    requires |b| == 4
    ensures Store32(host, ConvertLe32(host, v)) == Le32(v)
    ensures ConvertLe32(host, Load32(host, b)) == FromLe32(b)
  {
    if host.BigEndian? {
      var v0: Byte, v1: Byte, v2: Byte, v3: Byte :=
        v % U16 % 0x100, v % U16 / 0x100, v / U16 % 0x100, v / U16 / 0x100;
      Digits32(v, v0, v1, v2, v3);
      Digits32(ConvertLe32(host, v), v3, v2, v1, v0);
      Digits32(Load32(host, b), b[3], b[2], b[1], b[0]);
    }
  }
}
