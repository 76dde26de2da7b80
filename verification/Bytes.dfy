/** Big-endian integers, as encoding/binary writes and reads them. */
module Bytes {

  const TWO_16 := 0x1_0000
  const TWO_32 := 0x1_0000_0000
  const TWO_64 := 0x1_0000_0000_0000_0000

  type byte = x: int | 0 <= x < 256
  type uint16 = x: int | 0 <= x < TWO_16
  type uint32 = x: int | 0 <= x < TWO_32
  type uint64 = x: int | 0 <= x < TWO_64
  type int32 = x: int | -0x8000_0000 <= x < 0x8000_0000
  type int64 = x: int | -0x8000_0000_0000_0000 <= x < 0x8000_0000_0000_0000

  type Bytes = seq<byte>

  function Uint16(v: uint16): (s: Bytes)
    ensures |s| == 2
  {
    [v / 256, v % 256]
  }

  function FromUint16(s: Bytes): uint16
    requires |s| == 2
  {
    (s[0] as int) * 256 + (s[1] as int)
  }

  function Uint32(v: uint32): (s: Bytes)
    ensures |s| == 4
  {
    Uint16(v / TWO_16) + Uint16(v % TWO_16)
  }

  function FromUint32(s: Bytes): uint32
    requires |s| == 4
  {
    (FromUint16(s[..2]) as int) * TWO_16 + (FromUint16(s[2..]) as int)
  }

  function Uint64(v: uint64): (s: Bytes)
    ensures |s| == 8
  {
    Uint32(v / TWO_32) + Uint32(v % TWO_32)
  }

  function FromUint64(s: Bytes): uint64
    requires |s| == 8
  {
    (FromUint32(s[..4]) as int) * TWO_32 + (FromUint32(s[4..]) as int)
  }

  /** The most significant byte comes first. */
  lemma {:induction false} BigEndian(v: uint32)
    ensures Uint32(v) == [v / 0x100_0000, v / 0x1_0000 % 256, v / 256 % 256, v % 256]
  {
    var h, l := v / TWO_16, v % TWO_16;
    assert v == h * TWO_16 + l && h == h / 256 * 256 + h % 256 && l == l / 256 * 256 + l % 256;
    assert v / 256 == h * 256 + l / 256;
  }

  lemma {:induction false} RoundTrip16(v: uint16)
    ensures FromUint16(Uint16(v)) == v
  {}

  lemma {:induction false} RoundTrip32(v: uint32)
    ensures FromUint32(Uint32(v)) == v
  {
    assert Uint32(v)[..2] == Uint16(v / TWO_16) && Uint32(v)[2..] == Uint16(v % TWO_16);
    RoundTrip16(v / TWO_16);
    RoundTrip16(v % TWO_16);
  }

  lemma {:induction false} RoundTrip64(v: uint64)
    ensures FromUint64(Uint64(v)) == v
  {
    assert Uint64(v)[..4] == Uint32(v / TWO_32) && Uint64(v)[4..] == Uint32(v % TWO_32);
    RoundTrip32(v / TWO_32);
    RoundTrip32(v % TWO_32);
  }

  /** Any bytes are the writing of the number they read as. */
  lemma {:induction false} Unique16(s: Bytes)
    requires |s| == 2
    ensures Uint16(FromUint16(s)) == s
  {}

  lemma {:induction false} Halves16(h: uint16, l: uint16)
    ensures var v := (h as int) * TWO_16 + (l as int); v / TWO_16 == h && v % TWO_16 == l
  {}

  lemma {:induction false} Unique32(s: Bytes)
    requires |s| == 4
    ensures Uint32(FromUint32(s)) == s
  {
    Unique16(s[..2]);
    Unique16(s[2..]);
    Halves16(FromUint16(s[..2]), FromUint16(s[2..]));
    assert s == s[..2] + s[2..];
  }

  /** A length as a 32-bit field holds it. */
  function Low32(v: nat): uint32 {
    if v < TWO_32 then v else v % TWO_32
  }

  /** A signed number is stored as its two's complement. */
  function Int64(v: int64): (s: Bytes)
    ensures |s| == 8
  {
    Uint64(if v < 0 then v + TWO_64 else v)
  }

  function FromInt64(s: Bytes): int64
    requires |s| == 8
  {
    var u := FromUint64(s);
    if u < TWO_64 / 2 then u else u - TWO_64
  }

  lemma {:induction false} RoundTripInt64(v: int64)
    ensures FromInt64(Int64(v)) == v
  {
    RoundTrip64(if v < 0 then v + TWO_64 else v);
  }

  function Int32(v: int32): (s: Bytes)
    ensures |s| == 4
  {
    Uint32(if v < 0 then v + TWO_32 else v)
  }

  function FromInt32(s: Bytes): int32
    requires |s| == 4
  {
    var u := FromUint32(s);
    if u < TWO_32 / 2 then u else u - TWO_32
  }

  lemma {:induction false} RoundTripInt32(v: int32)
    ensures FromInt32(Int32(v)) == v
  {
    RoundTrip32(if v < 0 then v + TWO_32 else v);
  }
}
