/** Fixed-width integers and their little-endian byte encodings, as used by
    Go's `encoding/binary` with `binary.LittleEndian`. */
module Bytes {

  type Byte = x: int | 0 <= x < 0x100
  type U32 = x: int | 0 <= x < 0x1_0000_0000
  type I16 = x: int | -0x8000 <= x < 0x8000

  /** 256 to the power n: the number of distinct values n bytes can hold. */
  function Pow256(n: nat): nat
  {
    if n == 0 then 1 else 0x100 * Pow256(n - 1)
  }

  lemma Pow256Widths()
    ensures Pow256(1) == 0x100
    ensures Pow256(2) == 0x1_0000
    ensures Pow256(4) == 0x1_0000_0000
  {
    assert Pow256(2) == 0x100 * Pow256(1);
    assert Pow256(4) == 0x100 * (0x100 * Pow256(2));
  }

  /** n zero bytes. */
  function Zeros(n: nat): (z: seq<Byte>)
    ensures |z| == n
    ensures forall i :: 0 <= i < n ==> z[i] == 0
  {
    seq(n, _ => 0)
  }

  /** The unsigned value of bytes stored least significant first. */
  function FromLe(b: seq<Byte>): (x: nat)
    ensures x < Pow256(|b|)
  {
    if b == [] then 0 else b[0] + 0x100 * FromLe(b[1..])
  }

  /** The positional meaning of 2- and 4-byte little-endian values. */
  lemma FromLeDigits(b: seq<Byte>)
    ensures |b| == 2 ==> FromLe(b) == b[0] as int + 0x100 * b[1] as int
    ensures |b| == 4 ==> FromLe(b) == b[0] as int + 0x100 * b[1] as int
                                      + 0x1_0000 * b[2] as int + 0x100_0000 * b[3] as int
  {
    if |b| == 2 {
      assert b[1..][1..] == [];
    }
    if |b| == 4 {
      assert b[1..][1..][1..][1..] == [];
    }
  }

  /** The n bytes that store x least significant first. */
  function ToLe(x: nat, n: nat): (b: seq<Byte>)
    requires x < Pow256(n)
    ensures |b| == n
  {
    if n == 0 then [] else [x % 0x100] + ToLe(x / 0x100, n - 1)
  }

  /** Reading back what was written gives the original value. */
  lemma {:induction false} FromLeToLe(x: nat, n: nat)
    requires x < Pow256(n)
    ensures FromLe(ToLe(x, n)) == x
  {
    if n > 0 {
      var b := ToLe(x, n);
      assert b[1..] == ToLe(x / 0x100, n - 1);
      FromLeToLe(x / 0x100, n - 1);
    }
  }

  /** Writing what was read gives the original bytes: the encoding is a bijection. */
  lemma {:induction false} ToLeFromLe(b: seq<Byte>)
    ensures ToLe(FromLe(b), |b|) == b
  {
    if b != [] {
      ToLeFromLe(b[1..]);
      var x := FromLe(b);
      assert x % 0x100 == b[0];
      assert x / 0x100 == FromLe(b[1..]);
    }
  }

  /** The int16 whose two's-complement bit pattern is the uint16 u. */
  function ToSigned16(u: nat): (x: I16)
    requires u < 0x1_0000
    ensures x % 0x1_0000 == u
    ensures x < 0 <==> u >= 0x8000
  {
    if u < 0x8000 then u else u - 0x1_0000
  }

  /** The uint16 bit pattern of the int16 x in two's complement. */
  function FromSigned16(x: I16): (u: nat)
    ensures u < 0x1_0000
    ensures u == x % 0x1_0000
  {
    if x < 0 then x + 0x1_0000 else x
  }

  lemma Signed16RoundTrip(x: I16, u: nat)
    requires u < 0x1_0000
    ensures ToSigned16(FromSigned16(x)) == x
    ensures FromSigned16(ToSigned16(u)) == u
  {
  }
}
