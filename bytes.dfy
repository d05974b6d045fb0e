/** Octets, the additive checksum and the little-endian integer conversions of `BitConverter`
    on a little-endian host. */
module Bytes {

  /** One octet on the wire. */
  type Byte = b: int | 0 <= b < 256

  const U16: nat := 65536

  /** Arithmetic sum of a byte run (the value a `ushort` accumulator would hold without wrapping). */
  function Sum(s: seq<Byte>): (r: nat)
    ensures r <= 255 * |s|
  {
    if |s| == 0 then 0 else Sum(s[..|s| - 1]) + s[|s| - 1]
  }

  /** The `foreach (var b in ...) calculatedSum += b;` loop over a `ushort`: it wraps at 2^16. */
  method Sum16(s: seq<Byte>) returns (sum: nat)
    ensures sum == Sum(s) % U16
  {
    sum := 0;
    var i := 0;
    while i < |s|
      invariant 0 <= i <= |s|
      invariant sum == Sum(s[..i]) % U16
    {
      assert s[..i + 1][..i] == s[..i];
      assert Sum(s[..i + 1]) == Sum(s[..i]) + s[i];
      AddUnderModulus(Sum(s[..i]), s[i]);
      sum := (sum + s[i]) % U16;
      i := i + 1;
    }
    assert s[..|s|] == s;
  }

  /** Reducing the accumulator before each addition does not change the residue. */
  lemma AddUnderModulus(x: nat, b: nat)
    ensures (x % U16 + b) % U16 == (x + b) % U16
  {
  }

  /** `BitConverter.ToUInt16` of two bytes, low byte first. */
  function ReadU16(lo: Byte, hi: Byte): (r: nat)
    ensures r < U16
  {
    lo + 256 * hi
  }

  /** `BitConverter.GetBytes(ushort)`: low byte first. */
  function LittleEndian16(v: nat): (r: seq<Byte>)
    requires v < U16
    ensures |r| == 2 && ReadU16(r[0], r[1]) == v
  {
    [v % 256, v / 256]
  }

  lemma LittleEndian16Inverse(s: seq<Byte>)
    requires |s| == 2
    ensures LittleEndian16(ReadU16(s[0], s[1])) == s
  {
  }

  /** `BitConverter.ToInt16`: two's complement reading of the same two bytes. */
  function ReadI16(lo: Byte, hi: Byte): (r: int)
    ensures -32768 <= r <= 32767
    ensures (r - ReadU16(lo, hi)) % U16 == 0
  {
    var u := ReadU16(lo, hi);
    if u < 32768 then u else u - U16
  }

  /** The two bytes a device sends for a signed 16-bit value. */
  function EncodeI16(t: int): (r: seq<Byte>)
    requires -32768 <= t <= 32767
    ensures |r| == 2
  {
    LittleEndian16(if t < 0 then t + U16 else t)
  }

  lemma ReadEncodedI16(t: int)
    requires -32768 <= t <= 32767
    ensures var b := EncodeI16(t); ReadI16(b[0], b[1]) == t
  {
  }

  /** The worked examples of a temperature item: E8 00 is 232 tenths, CE FF is -50 tenths. */
  lemma ReadI16Examples()
    ensures ReadI16(0xE8, 0x00) == 232
    ensures ReadI16(0xCE, 0xFF) == -50
    ensures ReadI16(0xFA, 0x00) == 250
  {
  }

  function Pow2(n: nat): (r: nat)
    ensures r >= 1
  {
    if n == 0 then 1 else 2 * Pow2(n - 1)
  }

  /** Exclusive or of the low `n` bits of two numbers, least significant bit first. */
  function XorBits(a: nat, b: nat, n: nat): (r: nat)
    ensures r < Pow2(n)
  {
    if n == 0 then 0 else 2 * XorBits(a / 2, b / 2, n - 1) + (a % 2 + b % 2) % 2
  }

  /** The `^` operator on two bytes. */
  function Xor(a: Byte, b: Byte): Byte
  {
    XorBits(a, b, 8)
  }

  lemma {:induction false} XorBitsCancel(a: nat, k: nat, n: nat)
    requires a < Pow2(n)
    ensures XorBits(XorBits(a, k, n), k, n) == a
  {
    if n > 0 {
      var y := XorBits(a / 2, k / 2, n - 1);
      var bit := (a % 2 + k % 2) % 2;
      var x := 2 * y + bit;
      assert x == XorBits(a, k, n);
      HalfOf(y, bit);
      assert a / 2 < Pow2(n - 1);
      XorBitsCancel(a / 2, k / 2, n - 1);
      assert XorBits(x, k, n) == 2 * (a / 2) + (bit + k % 2) % 2;
      BitCancel(a, k);
    }
  }

  lemma BitCancel(a: nat, k: nat)
    ensures 2 * (a / 2) + ((a % 2 + k % 2) % 2 + k % 2) % 2 == a
  {
  }

  lemma HalfOf(y: nat, bit: nat)
    requires bit < 2
    ensures (2 * y + bit) / 2 == y && (2 * y + bit) % 2 == bit
  {
  }

  lemma {:induction false} XorBitsCommute(a: nat, b: nat, n: nat)
    ensures XorBits(a, b, n) == XorBits(b, a, n)
  {
    if n > 0 {
      XorBitsCommute(a / 2, b / 2, n - 1);
    }
  }

  /** XOR is its own inverse: applying the same key byte twice restores the byte, in either operand order. */
  lemma XorCancel(a: Byte, k: Byte)
    ensures Xor(Xor(a, k), k) == a
    ensures Xor(k, Xor(k, a)) == a
    ensures Xor(a, k) == Xor(k, a)
  {
    XorBitsCancel(a, k, 8);
    XorBitsCommute(a, k, 8);
    XorBitsCommute(k, Xor(k, a), 8);
    XorBitsCancel(a, k, 8);
  }
}
