/** Bytes, little-endian integers and the fixed-width integer conversions of the
    DMAP wire format. Integers are mathematical; every width is explicit. */
module Bytes {

  type byte = b: int | 0 <= b < 0x100

  type i8 = x: int | -0x80 <= x < 0x80
  type i16 = x: int | -0x8000 <= x < 0x8000
  type i32 = x: int | -0x8000_0000 <= x < 0x8000_0000
  type i64 = x: int | -0x8000_0000_0000_0000 <= x < 0x8000_0000_0000_0000
  type u8 = x: int | 0 <= x < 0x100
  type u16 = x: int | 0 <= x < 0x1_0000
  type u32 = x: int | 0 <= x < 0x1_0000_0000
  type u64 = x: int | 0 <= x < 0x1_0000_0000_0000_0000

  /** The byte widths of the wire format's integers. */
  predicate IsWidth(n: nat) {
    n == 1 || n == 2 || n == 4 || n == 8
  }

  /** 256^n: the number of distinct n-byte patterns. */
  function Modulus(n: nat): (m: nat)
    requires IsWidth(n)
    ensures m >= 0x100
  {
    if n == 1 then 0x100
    else if n == 2 then 0x1_0000
    else if n == 4 then 0x1_0000_0000
    else 0x1_0000_0000_0000_0000
  }

  /** The unsigned integer whose little-endian bytes are `bs`. */
  function FromLE(bs: seq<byte>): (x: nat)
    requires IsWidth(|bs|)
    ensures x < Modulus(|bs|)
  {
    if |bs| == 1 then bs[0]
    else if |bs| == 2 then bs[0] + 0x100 * bs[1]
    else if |bs| == 4 then FromLE(bs[..2]) + 0x1_0000 * FromLE(bs[2..])
    else FromLE(bs[..4]) + 0x1_0000_0000 * FromLE(bs[4..])
  }

  /** The n little-endian bytes of `x`. */
  function ToLE(x: nat, n: nat): (bs: seq<byte>)
    requires IsWidth(n) && x < Modulus(n)
    ensures |bs| == n
  {
    if n == 1 then [x]
    else if n == 2 then [x % 0x100, x / 0x100]
    else if n == 4 then ToLE(x % 0x1_0000, 2) + ToLE(x / 0x1_0000, 2)
    else ToLE(x % 0x1_0000_0000, 4) + ToLE(x / 0x1_0000_0000, 4)
  }

  /** Writing then reading a little-endian integer gives it back. */
  lemma {:induction false} FromLEOfToLE(x: nat, n: nat)
    requires IsWidth(n) && x < Modulus(n)
    ensures FromLE(ToLE(x, n)) == x
  {
    if n == 4 {
      var bs := ToLE(x, 4);
      assert bs[..2] == ToLE(x % 0x1_0000, 2) && bs[2..] == ToLE(x / 0x1_0000, 2);
      FromLEOfToLE(x % 0x1_0000, 2);
      FromLEOfToLE(x / 0x1_0000, 2);
    } else if n == 8 {
      var bs := ToLE(x, 8);
      assert bs[..4] == ToLE(x % 0x1_0000_0000, 4) && bs[4..] == ToLE(x / 0x1_0000_0000, 4);
      FromLEOfToLE(x % 0x1_0000_0000, 4);
      FromLEOfToLE(x / 0x1_0000_0000, 4);
    }
  }

  /** Reading then writing a little-endian integer gives the same bytes. */
  lemma {:induction false} ToLEOfFromLE(bs: seq<byte>)
    requires IsWidth(|bs|)
    ensures ToLE(FromLE(bs), |bs|) == bs
  {
    if |bs| == 2 {
      ToLEOfFromLE2(bs);
    } else if |bs| == 4 {
      ToLEOfFromLE4(bs);
    } else if |bs| == 8 {
      ToLEOfFromLE8(bs);
    }
  }

  lemma {:induction false} ToLEOfFromLE8(bs: seq<byte>)
    requires |bs| == 8
    ensures ToLE(FromLE(bs), 8) == bs
  {
    var lo, hi := FromLE(bs[..4]), FromLE(bs[4..]);
    SplitAt32(lo, hi);
    assert ToLE(FromLE(bs), 8) == ToLE(lo, 4) + ToLE(hi, 4);
    ToLEOfFromLE4(bs[..4]);
    ToLEOfFromLE4(bs[4..]);
    assert bs == bs[..4] + bs[4..];
  }

  lemma {:induction false} ToLEOfFromLE2(bs: seq<byte>)
    requires |bs| == 2
    ensures ToLE(FromLE(bs), 2) == bs
  {
    SplitAt8(bs[0], bs[1]);
  }

  lemma {:induction false} ToLEOfFromLE4(bs: seq<byte>)
    requires |bs| == 4
    ensures ToLE(FromLE(bs), 4) == bs
  {
    var lo, hi := FromLE(bs[..2]), FromLE(bs[2..]);
    SplitAt16(lo, hi);
    assert ToLE(FromLE(bs), 4) == ToLE(lo, 2) + ToLE(hi, 2);
    ToLEOfFromLE2(bs[..2]);
    ToLEOfFromLE2(bs[2..]);
    assert bs == bs[..2] + bs[2..];
  }

  /** Quotient and remainder of a two-digit number in base 2^8, 2^16 and 2^32. */
  lemma {:induction false} SplitAt8(lo: int, hi: int)
    requires 0 <= lo < 0x100
    ensures (lo + 0x100 * hi) % 0x100 == lo && (lo + 0x100 * hi) / 0x100 == hi
  {
  }

  lemma {:induction false} SplitAt16(lo: int, hi: int)
    requires 0 <= lo < 0x1_0000
    ensures (lo + 0x1_0000 * hi) % 0x1_0000 == lo && (lo + 0x1_0000 * hi) / 0x1_0000 == hi
  {
  }

  lemma {:induction false} SplitAt32(lo: int, hi: int)
    requires 0 <= lo < 0x1_0000_0000
    ensures (lo + 0x1_0000_0000 * hi) % 0x1_0000_0000 == lo && (lo + 0x1_0000_0000 * hi) / 0x1_0000_0000 == hi
  {
  }

  /** The n-byte two's-complement bit pattern of the signed integer `x`. */
  function Unsigned(x: int, n: nat): (u: nat)
    requires IsWidth(n) && 0 <= Modulus(n) + 2 * x && 2 * x < Modulus(n)
    ensures u < Modulus(n)
    ensures Signed(u, n) == x
  {
    if x < 0 then x + Modulus(n) else x
  }

  /** The signed integer whose n-byte two's-complement bit pattern is `u`. */
  function Signed(u: nat, n: nat): (x: int)
    requires IsWidth(n) && u < Modulus(n)
    ensures 0 <= Modulus(n) + 2 * x && 2 * x < Modulus(n)
    ensures x == u || x == u - Modulus(n)
  {
    if 2 * u >= Modulus(n) then u - Modulus(n) else u
  }

  lemma {:induction false} UnsignedOfSigned(u: nat, n: nat)
    requires IsWidth(n) && u < Modulus(n)
    ensures Unsigned(Signed(u, n), n) == u
  {
  }

  /** Rust's `as i32` on a wider integer: keep the low 32 bits, read them as signed. */
  function Wrap32(x: int): (w: i32)
    ensures (x - w) % 0x1_0000_0000 == 0
    ensures -0x8000_0000 <= x < 0x8000_0000 ==> w == x
  {
    var u := x % 0x1_0000_0000;
    if u >= 0x8000_0000 then u - 0x1_0000_0000 else u
  }

  /** Rust's `as u64` on an i32: negative values sign-extend to 2^64 + x. */
  function AsU64(x: i32): (u: u64)
    ensures x >= 0 ==> u == x
    ensures x < 0 ==> u >= 0x1_0000_0000_0000_0000 - 0x8000_0000
  {
    if x < 0 then x + 0x1_0000_0000_0000_0000 else x
  }
}
