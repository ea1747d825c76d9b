/**
  The 8-byte header `writeHeader` sends on every new connection: the marker
  `00 00 00 04`, then the protocol class and the protocol type, each converted
  to a Go `int16` and written big-endian.
 */
module Handshake {
  import opened Common
  import Framing

  const MARKER: seq<byte> := [0x00, 0x00, 0x00, 0x04]
  const HEADER_SIZE: nat := 8

  /** Go's `int16(v)`: the low 16 bits of `v` read as a two's-complement value. */
  function ToInt16(v: int): (r: int)
    ensures -0x8000 <= r < 0x8000
    ensures (r - v) % 0x1_0000 == 0
  {
    var bits := v % 0x1_0000;
    if bits < 0x8000 then bits else bits - 0x1_0000
  }

  /** `binary.Write(buff, binary.BigEndian, int16(v))`: high byte first. */
  function BigEndian16(v: int): seq<byte> {
    var bits := v % 0x1_0000;
    [bits / 0x100, bits % 0x100]
  }

  /** The handshake buffer for a protocol class and type. */
  function Header(sqlClass: int, sqlType: int): seq<byte> {
    MARKER + BigEndian16(sqlClass) + BigEndian16(sqlType)
  }

  /** Reads two bytes as a big-endian `int16`. */
  function ReadInt16(b: seq<byte>): (v: int)
    requires |b| == 2
    ensures -0x8000 <= v < 0x8000
  {
    var bits := b[0] as int * 0x100 + b[1] as int;
    if bits < 0x8000 then bits else bits - 0x1_0000
  }

  /** The server's side: check the marker and read class and type back. */
  function ParseHeader(b: seq<byte>): Option<(int, int)> {
    if |b| != HEADER_SIZE || b[..4] != MARKER then None
    else Some((ReadInt16(b[4..6]), ReadInt16(b[6..8])))
  }

  /** Reads four bytes as an unsigned big-endian integer. */
  function ReadBE32(b: seq<byte>): nat
    requires |b| == 4
  {
    ((b[0] as int * 0x100 + b[1] as int) * 0x100 + b[2] as int) * 0x100 + b[3] as int
  }

  lemma BigEndian16Reads(v: int)
    ensures |BigEndian16(v)| == 2 && ReadInt16(BigEndian16(v)) == ToInt16(v)
  {
    var bits := v % 0x1_0000;
    assert (bits / 0x100) * 0x100 + bits % 0x100 == bits;
  }

  /**
    The header is 8 bytes, starts with the marker, and the server reads back the
    sqlClass and type as Go's `int16` conversions of the configured values.
   */
  lemma HeaderRoundTrip(sqlClass: int, sqlType: int)
    ensures |Header(sqlClass, sqlType)| == HEADER_SIZE
    ensures Header(sqlClass, sqlType)[..4] == MARKER
    ensures ParseHeader(Header(sqlClass, sqlType)) == Some((ToInt16(sqlClass), ToInt16(sqlType)))
  {
    BigEndian16Reads(sqlClass);
    BigEndian16Reads(sqlType);
    var h := Header(sqlClass, sqlType);
    assert h[4..6] == BigEndian16(sqlClass);
    assert h[6..8] == BigEndian16(sqlType);
  }

  /** For values that fit in an `int16` nothing is lost. */
  lemma HeaderRoundTripInRange(sqlClass: int, sqlType: int)
    requires -0x8000 <= sqlClass < 0x8000 && -0x8000 <= sqlType < 0x8000
    ensures ParseHeader(Header(sqlClass, sqlType)) == Some((sqlClass, sqlType))
  {
    HeaderRoundTrip(sqlClass, sqlType);
    assert ToInt16(sqlClass) == sqlClass && ToInt16(sqlType) == sqlType;
  }

  /**
    The marker is a big-endian length field counting the four bytes that follow
    it; read little-endian, as the per-packet length field is, it would mean 2^26.
   */
  lemma MarkerIsBigEndianLength(sqlClass: int, sqlType: int)
    ensures ReadBE32(Header(sqlClass, sqlType)[..4]) == |Header(sqlClass, sqlType)| - 4
    ensures Framing.DecodeLE32(Header(sqlClass, sqlType)[..4]) == 0x400_0000
  {
    HeaderRoundTrip(sqlClass, sqlType);
  }
}
