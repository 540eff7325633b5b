/** Bytes and the fixed-width integers that the image formats store.

    ECMA-119 writes some numbers little-endian (7.3.1), some big-endian (7.3.2) and most of them in
    both orders one after the other (7.2.3 for 16 bits, 7.3.3 for 32 bits). */
module Bytes {

  newtype byte = b: int | 0 <= b < 256

  datatype Option<+T> = None | Some(value: T)

  datatype Order = LittleEndian | BigEndian

  /** A conversion `as u32` or a wrapping 32-bit result. */
  function U32(v: int): (r: nat)
    ensures r < 0x1_0000_0000
    ensures 0 <= v < 0x1_0000_0000 ==> r == v
  {
    v % 0x1_0000_0000
  }

  /** A conversion `as u16`. */
  function U16(v: int): (r: nat)
    ensures r < 0x1_0000
    ensures 0 <= v < 0x1_0000 ==> r == v
  {
    v % 0x1_0000
  }

  /** A conversion `as u8`. */
  function U8(v: int): (r: byte)
    ensures r as int == v % 256
  {
    (v % 256) as byte
  }

  /** A conversion of a stream position `as i32`. */
  function I32(v: int): (r: int)
    ensures -0x8000_0000 <= r < 0x8000_0000
    ensures 0 <= v < 0x8000_0000 ==> r == v
  {
    var u := v % 0x1_0000_0000;
    if u < 0x8000_0000 then u else u - 0x1_0000_0000
  }

  function Le16(v: nat): seq<byte> {
    var u := U16(v);
    [U8(u), U8(u / 256)]
  }

  function Le32(v: nat): seq<byte> {
    var u := U32(v);
    Le16(u % 0x1_0000) + Le16(u / 0x1_0000)
  }

  function Be16(v: nat): seq<byte> {
    var u := U16(v);
    [U8(u / 256), U8(u)]
  }

  function Be32(v: nat): seq<byte> {
    var u := U32(v);
    Be16(u / 0x1_0000) + Be16(u % 0x1_0000)
  }

  function Ordered16(order: Order, v: nat): (s: seq<byte>)
    ensures |s| == 2
  {
    if order.LittleEndian? then Le16(v) else Be16(v)
  }

  function Ordered32(order: Order, v: nat): (s: seq<byte>)
    ensures |s| == 4
  {
    if order.LittleEndian? then Le32(v) else Be32(v)
  }

  /** The both-byte-order forms of 7.2.3 and 7.3.3. */
  function Both16(v: nat): (s: seq<byte>)
    ensures |s| == 4
  {
    Le16(v) + Be16(v)
  }

  function Both32(v: nat): (s: seq<byte>)
    ensures |s| == 8
  {
    Le32(v) + Be32(v)
  }

  function Decode16(order: Order, a: byte, b: byte): nat {
    if order.LittleEndian? then a as nat + 256 * b as nat else b as nat + 256 * a as nat
  }

  function Decode32(order: Order, a: byte, b: byte, c: byte, d: byte): nat {
    if order.LittleEndian? then Decode16(order, a, b) + 0x1_0000 * Decode16(order, c, d)
    else Decode16(order, c, d) + 0x1_0000 * Decode16(order, a, b)
  }

  lemma Decode16Encoded(order: Order, v: nat)
    ensures var s := Ordered16(order, v); Decode16(order, s[0], s[1]) == U16(v)
  {
  }

  lemma Decode32Encoded(order: Order, v: nat)
    ensures var s := Ordered32(order, v); Decode32(order, s[0], s[1], s[2], s[3]) == U32(v)
  {
    var u := U32(v);
    Decode16Encoded(order, u % 0x1_0000);
    Decode16Encoded(order, u / 0x1_0000);
  }

  function Zeros(n: nat): (s: seq<byte>)
    ensures |s| == n
    ensures forall i :: 0 <= i < n ==> s[i] == 0
  {
    seq(n, _ => 0)
  }
}
