/**
 * Fixed-width unsigned integers and their little-endian byte encodings:
 * the meaning of `u16::from_le_bytes` and `u32::from_le_bytes` as the
 * boot-sector decoder uses them.
 */
module LittleEndian {

  newtype uint8 = x: int | 0 <= x < 0x100
  newtype uint16 = x: int | 0 <= x < 0x1_0000
  newtype uint32 = x: int | 0 <= x < 0x1_0000_0000

  /** 256 to the power n: one more than the largest value n bytes can hold. */
  function Pow256(n: nat): nat
  {
    if n == 0 then 1 else 256 * Pow256(n - 1)
  }

  /**
   * Reference definition: the unsigned integer whose little-endian encoding
   * is `bs`, least-significant byte first.
   */
  function LeValue(bs: seq<uint8>): (r: nat)
    ensures r < Pow256(|bs|)
  {
    if bs == [] then 0 else bs[0] as nat + 256 * LeValue(bs[1..])
  }

  /** The n-byte little-endian encoding of x, taken modulo 256^n. */
  function LeBytes(x: nat, n: nat): (bs: seq<uint8>)
    ensures |bs| == n
  {
    if n == 0 then [] else [(x % 256) as uint8] + LeBytes(x / 256, n - 1)
  }

  /** Encoding a value that fits in n bytes and decoding it gives the value back. */
  lemma {:induction false} LeValueOfLeBytes(x: nat, n: nat)
    requires x < Pow256(n)
    ensures LeValue(LeBytes(x, n)) == x
  {
    if n > 0 {
      LeValueOfLeBytes(x / 256, n - 1);
      assert LeBytes(x, n)[1..] == LeBytes(x / 256, n - 1);
    }
  }

  /** Decoding a byte string and re-encoding it at the same width gives the bytes back. */
  lemma {:induction false} LeBytesOfLeValue(bs: seq<uint8>)
    ensures LeBytes(LeValue(bs), |bs|) == bs
  {
    if bs != [] {
      var v := LeValue(bs);
      assert v % 256 == bs[0] as int && v / 256 == LeValue(bs[1..]);
      LeBytesOfLeValue(bs[1..]);
    }
  }

  /** Two byte strings of one width with the same little-endian value are equal. */
  lemma LeValueInjective(a: seq<uint8>, b: seq<uint8>)
    requires |a| == |b|
    ensures LeValue(a) == LeValue(b) <==> a == b
  {
    LeBytesOfLeValue(a);
    LeBytesOfLeValue(b);
  }

  /** The value of four bytes, weighed by powers of 256, least significant first. */
  lemma LeValueOfFour(b: seq<uint8>)
    requires |b| == 4
    ensures LeValue(b) == b[0] as int + 0x100 * b[1] as int + 0x1_0000 * b[2] as int + 0x100_0000 * b[3] as int
  {
    assert LeValue(b[2..]) == b[2] as nat + 0x100 * b[3] as nat by {
      assert b[2..][1..] == [b[3]];
    }
  }

  /** `u16::from_le_bytes`: two bytes, least-significant first. */
  function Uint16FromLeBytes(b: seq<uint8>): (r: uint16)
    requires |b| == 2
    ensures r as nat == LeValue(b)
    ensures LeBytes(r as nat, 2) == b
  {
    LeBytesOfLeValue(b);
    (b[0] as int + 0x100 * b[1] as int) as uint16
  }

  /** `u32::from_le_bytes`: four bytes, least-significant first. */
  function Uint32FromLeBytes(b: seq<uint8>): (r: uint32)
    requires |b| == 4
    ensures r as nat == LeValue(b)
    ensures LeBytes(r as nat, 4) == b
  {
    LeBytesOfLeValue(b);
    LeValueOfFour(b);
    (b[0] as int + 0x100 * b[1] as int + 0x1_0000 * b[2] as int + 0x100_0000 * b[3] as int) as uint32
  }
}
