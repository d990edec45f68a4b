/**
 * 32-bit integers as they travel on the wire: C#'s unchecked `int`
 * arithmetic and the 4-byte little-endian codec that both programs use
 * for every integer field (message kind, payload length, settings,
 * version numbers).
 */
module Wire {
  import opened Wrappers

  newtype byte = x: int | 0 <= x < 256

  const TWO_32: int := 0x1_0000_0000
  const INT32_MIN: int := -0x8000_0000
  const INT32_MAX: int := 0x7FFF_FFFF

  predicate IsInt32(x: int) {
    INT32_MIN <= x <= INT32_MAX
  }

  /** The value `x` has after C#'s unchecked conversion to a 32-bit `int`. */
  function Wrap32(x: int): (r: int)
    ensures IsInt32(r)
    ensures (x - r) % TWO_32 == 0
    ensures IsInt32(x) ==> r == x
  {
    var u := x % TWO_32;
    if u <= INT32_MAX then u else u - TWO_32
  }

  /** Little-endian two's complement encoding of the 32-bit value of `x`. */
  function IntToBytes(x: int): (b: seq<byte>)
    ensures |b| == 4
  {
    var u := x % TWO_32;
    var q1 := u / 0x100;
    var q2 := q1 / 0x100;
    var q3 := q2 / 0x100;
    [(u % 0x100) as byte, (q1 % 0x100) as byte, (q2 % 0x100) as byte, q3 as byte]
  }

  /** The unsigned value of the four bytes at `offset`. */
  function Unsigned(b: seq<byte>, offset: nat): (u: int)
    requires offset + 4 <= |b|
    ensures 0 <= u < TWO_32
  {
    b[offset] as int + 0x100 * b[offset + 1] as int
      + 0x1_0000 * b[offset + 2] as int + 0x100_0000 * b[offset + 3] as int
  }

  /**
   * Reads a 32-bit integer at `offset`; `None` stands for the exception
   * the read raises when fewer than four bytes remain.
   */
  function IntFromBytes(b: seq<byte>, offset: nat): (r: Option<int>)
    ensures r.Some? <==> offset + 4 <= |b|
    ensures r.Some? ==> IsInt32(r.value)
  {
    if offset + 4 <= |b| then Some(Wrap32(Unsigned(b, offset))) else None
  }

  lemma DivMod256(v: int, lo: int, hi: int)
    requires 0 <= lo < 0x100 && 0 <= hi && v == lo + 0x100 * hi
    ensures v / 0x100 == hi && v % 0x100 == lo
  {
  }

  lemma WrapSameResidue(x: int, y: int)
    requires x % TWO_32 == y % TWO_32
    ensures Wrap32(x) == Wrap32(y)
  {
  }

  /** Decoding what was encoded gives back the 32-bit value. */
  lemma {:induction false} IntRoundTrip(x: int, rest: seq<byte>)
    ensures IntFromBytes(IntToBytes(x) + rest, 0) == Some(Wrap32(x))
  {
    var u := x % TWO_32;
    var q1 := u / 0x100;
    var q2 := q1 / 0x100;
    var q3 := q2 / 0x100;
    var b := IntToBytes(x) + rest;
    assert b[0] as int == u % 0x100 && b[1] as int == q1 % 0x100;
    assert b[2] as int == q2 % 0x100 && b[3] as int == q3;
    assert Unsigned(b, 0) == u;
    assert u % TWO_32 == u;
    WrapSameResidue(u, x);
  }

  /** Encoding what was decoded gives back the four bytes that were read. */
  lemma {:induction false} BytesRoundTrip(b: seq<byte>, offset: nat)
    requires offset + 4 <= |b|
    ensures IntToBytes(IntFromBytes(b, offset).value) == b[offset..offset + 4]
  {
    var v := Unsigned(b, offset);
    var w := Wrap32(v);
    assert w % TWO_32 == v;
    var b0, b1, b2, b3 := b[offset] as int, b[offset + 1] as int, b[offset + 2] as int, b[offset + 3] as int;
    DivMod256(v, b0, b1 + 0x100 * b2 + 0x1_0000 * b3);
    DivMod256(b1 + 0x100 * b2 + 0x1_0000 * b3, b1, b2 + 0x100 * b3);
    DivMod256(b2 + 0x100 * b3, b2, b3);
    assert b3 / 0x100 == 0 && b3 % 0x100 == b3;
  }

  /** Reading inside a prefix does not depend on what follows it. */
  lemma IntFromBytesPrefix(b: seq<byte>, rest: seq<byte>, offset: nat)
    requires offset + 4 <= |b|
    ensures IntFromBytes(b + rest, offset) == IntFromBytes(b, offset)
  {
    assert (b + rest)[offset..offset + 4] == b[offset..offset + 4];
  }

  /** Reading after a prefix is reading the remainder. */
  lemma IntFromBytesShift(a: seq<byte>, b: seq<byte>, offset: nat)
    ensures IntFromBytes(a + b, |a| + offset) == IntFromBytes(b, offset)
  {
    if offset + 4 <= |b| {
      assert (a + b)[|a| + offset] == b[offset];
      assert (a + b)[|a| + offset + 1] == b[offset + 1];
      assert (a + b)[|a| + offset + 2] == b[offset + 2];
      assert (a + b)[|a| + offset + 3] == b[offset + 3];
    }
  }
}
