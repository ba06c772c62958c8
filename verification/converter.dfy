/**
 Big-endian integers inside a byte vector, the header layout of a frame, and little-endian integers as
 the index file stores them.
 */
module Converter {
  import opened Arithmetic
  import opened Common

  type U32 = x: int | 0 <= x < 0x1_0000_0000
  type U64 = x: int | 0 <= x < 0x1_0000_0000_0000_0000

  // ---------- Big-endian fields ----------

  function Byte0(v: U32): Byte { v / 0x100_0000 }
  function Byte1(v: U32): Byte { v / 0x1_0000 % 0x100 }
  function Byte2(v: U32): Byte { v / 0x100 % 0x100 }
  function Byte3(v: U32): Byte { v % 0x100 }

  function Compose(b0: Byte, b1: Byte, b2: Byte, b3: Byte): U32 {
    b0 * 0x100_0000 + b1 * 0x1_0000 + b2 * 0x100 + b3
  }

  function GetU32(data: seq<Byte>, offset: nat): U32
    requires offset + 4 <= |data|
  {
    Compose(data[offset], data[offset + 1], data[offset + 2], data[offset + 3])
  }

  function GetU64(data: seq<Byte>, offset: nat): U64
    requires offset + 8 <= |data|
  {
    GetU32(data, offset) * 0x1_0000_0000 + GetU32(data, offset + 4)
  }

  lemma ComposeSplit(v: U32)
    ensures Compose(Byte0(v), Byte1(v), Byte2(v), Byte3(v)) == v
  {
    var q1, q2, q3 := v / 0x100, v / 0x1_0000, v / 0x100_0000;
    assert q2 == q1 / 0x100 && q3 == q2 / 0x100;
  }

  /** The most significant byte comes first. */
  lemma BigEndian32(data: seq<Byte>, offset: nat)
    requires offset + 4 <= |data|
    ensures var v := GetU32(data, offset);
            && data[offset] == v / 0x100_0000 && data[offset + 1] == v / 0x1_0000 % 0x100
            && data[offset + 2] == v / 0x100 % 0x100 && data[offset + 3] == v % 0x100
  {
    var v: int, b0: int, b1: int, b2: int := GetU32(data, offset), data[offset], data[offset + 1], data[offset + 2];
    assert v / 0x100 == 0x1_0000 * b0 + 0x100 * b1 + b2;
    assert v / 0x1_0000 == 0x100 * b0 + b1;
  }

  lemma BigEndian64(data: seq<Byte>, offset: nat)
    requires offset + 8 <= |data|
    ensures var v := GetU64(data, offset);
            v / 0x1_0000_0000 == GetU32(data, offset) && v % 0x1_0000_0000 == GetU32(data, offset + 4)
  {
  }

  /** Everything outside `[offset, offset + n)` is as before. */
  ghost predicate SameOutside(d: seq<Byte>, d': seq<Byte>, offset: nat, n: nat) {
    |d'| == |d| && forall k | 0 <= k < |d| && !(offset <= k < offset + n) :: d'[k] == d[k]
  }

  /** Writes four bytes in place: reading the field back gives the value, and no other byte moves. */
  method SetU32(destination: seq<Byte>, offset: nat, value: U32) returns (d: seq<Byte>)
    requires offset + 4 <= |destination|
    ensures SameOutside(destination, d, offset, 4) && GetU32(d, offset) == value
  {
    d := destination;
    d := d[offset := Byte0(value)];
    d := d[offset + 1 := Byte1(value)];
    d := d[offset + 2 := Byte2(value)];
    d := d[offset + 3 := Byte3(value)];
    ComposeSplit(value);
  }

  method SetU64(destination: seq<Byte>, offset: nat, value: U64) returns (d: seq<Byte>)
    requires offset + 8 <= |destination|
    ensures SameOutside(destination, d, offset, 8) && GetU64(d, offset) == value
  {
    d := SetU32(destination, offset, value / 0x1_0000_0000);
    var high := d;
    d := SetU32(d, offset + 4, value % 0x1_0000_0000);
    assert GetU32(d, offset) == GetU32(high, offset);
  }

  /** Rounds up to a multiple of four, by less than four. */
  function PaddedSize(n: nat): (r: nat)
    ensures r % 4 == 0 && n <= r < n + 4
  {
    n + (4 - n % 4) % 4
  }

  // ---------- Little-endian integers ----------

  function ToLittle(v: nat, n: nat): (bytes: seq<Byte>)
    ensures |bytes| == n
  {
    if n == 0 then [] else [v % 0x100] + ToLittle(v / 0x100, n - 1)
  }

  function FromLittle(bytes: seq<Byte>): nat {
    if bytes == [] then 0 else bytes[0] + 0x100 * FromLittle(bytes[1..])
  }

  function Pow256(n: nat): nat { if n == 0 then 1 else 0x100 * Pow256(n - 1) }

  lemma {:induction false} LittleRoundTrip(v: nat, n: nat)
    requires v < Pow256(n)
    ensures FromLittle(ToLittle(v, n)) == v
  {
    if n > 0 {
      LittleRoundTrip(v / 0x100, n - 1);
    }
  }

  /** The least significant byte comes first. */
  lemma {:induction false} LittleByte(v: nat, n: nat, k: nat)
    requires k < n
    ensures Pow256(0) == 1 && Pow256(k + 1) == 0x100 * Pow256(k) && Pow256(k) > 0
    ensures ToLittle(v, n)[k] == v / Pow256(k) % 0x100
    decreases k
  {
    if k > 0 {
      LittleByte(v / 0x100, n - 1, k - 1);
      DivideTwice(v, 0x100, Pow256(k - 1));
    }
  }

  lemma Little64(v: U64)
    ensures FromLittle(ToLittle(v, 8)) == v
  {
    assert Pow256(4) == 0x1_0000_0000;
    assert Pow256(8) == 0x1_0000_0000_0000_0000;
    LittleRoundTrip(v, 8);
  }
}
