/** Bytes and the fixed-width integers `struct.pack`/`struct.unpack` write and read. A shift or a mask by a
    power of two in the source is a division, a remainder or a product here. */
module Bytes {
  type byte = x: int | 0 <= x < 0x100
  type bytes = seq<byte>

  const TWO16 := 0x1_0000
  const TWO32 := 0x1_0000_0000

  /** The struct prefixes `<` and `>`; network order `!` is Big. */
  datatype Order = Little | Big

  function Put16(order: Order, v: int): (b: bytes)
    requires 0 <= v < TWO16
    ensures |b| == 2 && Get16(order, b, 0) == v
  {
    if order.Big? then [v / 0x100, v % 0x100] else [v % 0x100, v / 0x100]
  }

  function Get16(order: Order, b: bytes, i: nat): (v: int)
    requires i + 2 <= |b|
    ensures 0 <= v < TWO16
  {
    if order.Big?
    then (b[i] as int) * 0x100 + b[i + 1] as int
    else (b[i + 1] as int) * 0x100 + b[i] as int
  }

  /** A 32-bit field is two 16-bit halves, the high one first in network order. */
  function Put32(order: Order, v: int): (b: bytes)
    requires 0 <= v < TWO32
    ensures |b| == 4
  {
    var hi, lo := Put16(order, v / TWO16), Put16(order, v % TWO16);
    if order.Big? then hi + lo else lo + hi
  }

  function Get32(order: Order, b: bytes, i: nat): (v: int)
    requires i + 4 <= |b|
    ensures 0 <= v < TWO32
  {
    if order.Big?
    then Get16(order, b, i) * TWO16 + Get16(order, b, i + 2)
    else Get16(order, b, i + 2) * TWO16 + Get16(order, b, i)
  }

  /** A field written at offset `i` of any buffer reads back. */
  lemma GetPut32(order: Order, v: int, b: bytes, i: nat)
    requires 0 <= v < TWO32
    requires i + 4 <= |b| && b[i..i + 4] == Put32(order, v)
    ensures Get32(order, b, i) == v
  {
    var p := Put32(order, v);
    assert forall k :: 0 <= k < 4 ==> b[i + k] == b[i..i + 4][k] == p[k];
    assert b[i] == p[0] && b[i + 1] == p[1] && b[i + 2] == p[2] && b[i + 3] == p[3];
    assert order.Big? ==> Get16(order, b, i) == v / TWO16 && Get16(order, b, i + 2) == v % TWO16;
    assert order.Little? ==> Get16(order, b, i) == v % TWO16 && Get16(order, b, i + 2) == v / TWO16;
  }

  /** A part of a slice is a slice. */
  lemma SubSlice(f: bytes, pos: nat, e: bytes, i: nat, j: nat)
    requires pos + |e| <= |f| && f[pos..pos + |e|] == e && i <= j <= |e|
    ensures f[pos + i..pos + j] == e[i..j]
  {
    forall k | 0 <= k < j - i ensures f[pos + i..pos + j][k] == e[i..j][k] {
      assert f[pos..pos + |e|][i + k] == f[pos + i + k];
    }
  }

  lemma GetPut16(order: Order, v: int, b: bytes, i: nat)
    requires 0 <= v < TWO16
    requires i + 2 <= |b| && b[i..i + 2] == Put16(order, v)
    ensures Get16(order, b, i) == v
  {
    var p := Put16(order, v);
    assert forall k :: 0 <= k < 2 ==> b[i + k] == b[i..i + 2][k] == p[k];
  }

  lemma Put16Get16(order: Order, b: bytes, i: nat)
    requires i + 2 <= |b|
    ensures Put16(order, Get16(order, b, i)) == b[i..i + 2]
  {
  }

  /** Packing what was unpacked gives the four bytes back. */
  lemma Put32Get32(order: Order, b: bytes, i: nat)
    requires i + 4 <= |b|
    ensures Put32(order, Get32(order, b, i)) == b[i..i + 4]
  {
    Put16Get16(order, b, i);
    Put16Get16(order, b, i + 2);
    assert b[i..i + 2] + b[i + 2..i + 4] == b[i..i + 4];
    var v := Get32(order, b, i);
    assert v / TWO16 == Get16(order, b, if order.Big? then i else i + 2);
    assert v % TWO16 == Get16(order, b, if order.Big? then i + 2 else i);
  }

  function Zeros(n: nat): (z: bytes)
    ensures |z| == n && forall i :: 0 <= i < n ==> z[i] == 0
  {
    seq(n, _ => 0)
  }

  function Min(a: int, b: int): int { if a <= b then a else b }

  function Max(a: int, b: int): int { if a >= b then a else b }
}
