/** Bytes, byte order and padding. */
module Bytes {

  type Byte = x: int | 0 <= x < 256
  type Bytes = seq<Byte>

  datatype Endian = Little | Big

  function U16(e: Endian, b: Bytes): (n: nat)
    requires |b| == 2
    ensures n < 0x1_0000
  {
    var first: int, second: int := b[0], b[1];
    if e.Little? then first + 256 * second else second + 256 * first
  }

  function U32(e: Endian, b: Bytes): (n: nat)
    requires |b| == 4
    ensures n < 0x1_0000_0000
  {
    match e
    case Little => U16(e, b[..2]) + 0x1_0000 * U16(e, b[2..])
    case Big => U16(e, b[2..]) + 0x1_0000 * U16(e, b[..2])
  }

  /** The bytes that hold a number. */
  function Word(e: Endian, n: nat): (w: Bytes)
    requires n < 0x1_0000
    ensures |w| == 2 && U16(e, w) == n
  {
    if e.Little? then [n % 0x100, n / 0x100] else [n / 0x100, n % 0x100]
  }

  function Long(e: Endian, n: nat): (w: Bytes)
    requires n < 0x1_0000_0000
    ensures |w| == 4 && U32(e, w) == n
  {
    var high, low := Word(e, n / 0x1_0000), Word(e, n % 0x1_0000);
    var w := if e.Little? then low + high else high + low;
    assert w[..2] == (if e.Little? then low else high) && w[2..] == (if e.Little? then high else low);
    w
  }

  /** A signed 64-bit value in two's complement. */
  function I64(e: Endian, b: Bytes): int
    requires |b| == 8
  {
    var low, high := if e.Little? then U32(e, b[..4]) else U32(e, b[4..]), if e.Little? then U32(e, b[4..])
      else U32(e, b[..4]);
    var u := low + 0x1_0000_0000 * high;
    if high >= 0x8000_0000 then u - 0x1_0000_0000_0000_0000 else u
  }

  /** Eight bytes, from the least significant on, write the value modulo two to the 64th. */
  lemma I64Exactly(e: Endian, b: Bytes)
    requires |b| == 8
    ensures var d: seq<int> := if e.Little? then b else [b[7], b[6], b[5], b[4], b[3], b[2], b[1], b[0]];
            var u := d[0] + d[1] * 0x100 + d[2] * 0x1_0000 + d[3] * 0x100_0000 + d[4] * 0x1_0000_0000
              + d[5] * 0x100_0000_0000 + d[6] * 0x1_0000_0000_0000 + d[7] * 0x100_0000_0000_0000;
            I64(e, b) == if u >= 0x8000_0000_0000_0000 then u - 0x1_0000_0000_0000_0000 else u
  {}

  /** The 64-bit encoding of -1, the same in both byte orders. */
  const MINUS_ONE: Bytes := [255, 255, 255, 255, 255, 255, 255, 255]

  lemma MinusOne(e: Endian)
    ensures I64(e, MINUS_ONE) == -1
  {
    assert MINUS_ONE[..4] == [255, 255, 255, 255] && MINUS_ONE[4..] == [255, 255, 255, 255];
    assert MINUS_ONE[..4][..2] == [255, 255] && MINUS_ONE[..4][2..] == [255, 255];
    assert MINUS_ONE[4..][..2] == [255, 255] && MINUS_ONE[4..][2..] == [255, 255];
  }

  /** Three sequences put together in either order. */
  lemma Associative<T>(a: seq<T>, b: seq<T>, c: seq<T>)
    ensures a + (b + c) == a + b + c
  {}

  function Padded(n: nat): (p: nat)
    ensures n <= p < n + 4 && p % 4 == 0
  {
    (n + 3) / 4 * 4
  }

  function Concat(parts: seq<Bytes>): Bytes {
    if parts == [] then [] else parts[0] + Concat(parts[1..])
  }

  lemma {:induction false} ConcatSplit(a: seq<Bytes>, b: seq<Bytes>)
    ensures Concat(a + b) == Concat(a) + Concat(b)
  {
    if a == [] {
      assert a + b == b;
    } else {
      assert (a + b)[1..] == a[1..] + b;
      ConcatSplit(a[1..], b);
    }
  }
}
