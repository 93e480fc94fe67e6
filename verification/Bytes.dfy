/** Octets, byte strings and the little-endian packing that the tools do with
    `struct.pack` and the kernel does with `le32_to_cpu`. */
module Bytes {
  import opened Bits

  type byte = x: int | 0 <= x < 256

  const U16: nat := 0x1_0000
  const U32: nat := 0x1_0000_0000

  function Zeros(n: nat): (z: seq<byte>)
    ensures |z| == n && forall i :: 0 <= i < n ==> z[i] == 0
  {
    seq(n, _ => 0)
  }

  function Pack16(n: nat): (s: seq<byte>)
    requires n < U16
    ensures |s| == 2
  {
    [n % 256, n / 256]
  }

  function Unpack16(s: seq<byte>): (n: nat)
    requires |s| == 2
    ensures n < U16
  {
    (s[0] as int) + 256 * (s[1] as int)
  }

  function Pack32(n: nat): (s: seq<byte>)
    requires n < U32
    ensures |s| == 4
  {
    Pack16(n % U16) + Pack16(n / U16)
  }

  function Unpack32(s: seq<byte>): (n: nat)
    requires |s| == 4
    ensures n < U32
  {
    Unpack16(s[..2]) + U16 * Unpack16(s[2..])
  }

  lemma Unpack16Pack16(n: nat)
    requires n < U16
    ensures Unpack16(Pack16(n)) == n
  {
  }

  /** Unpacking recovers any 32-bit number that was packed. */
  lemma Unpack32Pack32(n: nat)
    requires n < U32
    ensures Unpack32(Pack32(n)) == n
  {
    var s := Pack32(n);
    assert s[..2] == Pack16(n % U16);
    assert s[2..] == Pack16(n / U16);
    Unpack16Pack16(n % U16);
    Unpack16Pack16(n / U16);
  }

  /** The least significant octet comes first. */
  lemma LittleEndian(a: byte, b: byte, c: byte, d: byte)
    ensures Unpack32([a, b, c, d]) == a + 256 * b + 0x1_0000 * c + 0x100_0000 * d
  {
    var s := [a, b, c, d];
    assert s[..2] == [a, b] && s[2..] == [c, d];
  }

  lemma Pack32Unpack32(s: seq<byte>)
    requires |s| == 4
    ensures Pack32(Unpack32(s)) == s
  {
    var lo, hi := Unpack16(s[..2]), Unpack16(s[2..]);
    var n := Unpack32(s);
    assert n % U16 == lo && n / U16 == hi;
    assert Pack16(lo) == s[..2];
    assert Pack16(hi) == s[2..];
  }

  function OctetOfBits(s: Bits): (b: byte)
    requires |s| == 8
    ensures BitsOf(b, 8) == s
  {
    BitsOfNatOf(s);
    NatOfBound(s);
    assert Pow2(8) == 256;
    NatOf(s)
  }

  /** Bitwise exclusive or of two octets. */
  function Xor(a: byte, b: byte): (r: byte)
    ensures BitsOf(r, 8) == XorBits(BitsOf(a, 8), BitsOf(b, 8))
  {
    OctetOfBits(XorBits(BitsOf(a, 8), BitsOf(b, 8)))
  }

  lemma OctetBitsInjective(a: byte, b: byte)
    requires BitsOf(a, 8) == BitsOf(b, 8)
    ensures a == b
  {
    assert Pow2(8) == 256;
    NatOfBitsOf(a, 8);
    NatOfBitsOf(b, 8);
  }

  const OCTET: nat := 8

  lemma XorNumber(a: byte, b: byte)
    ensures Xor(a, b) == XorNat(a, b, OCTET)
  {
    assert Pow2(8) == 256;
    NatOfBitsOf(a, 8);
    NatOfBitsOf(b, 8);
    NatOfBitsOf(Xor(a, b), 8);
    XorOnNumbers(BitsOf(a, 8), BitsOf(b, 8));
  }

  /** Adding the same octet twice changes nothing. */
  lemma XorXor(a: byte, k: byte)
    ensures Xor(Xor(a, k), k) == a
  {
    var x, y := BitsOf(a, 8), BitsOf(k, 8);
    assert XorBits(XorBits(x, y), y) == x;
    OctetBitsInjective(Xor(Xor(a, k), k), a);
  }

  lemma XorCommutes(a: byte, b: byte)
    ensures Xor(a, b) == Xor(b, a)
  {
    assert XorBits(BitsOf(a, 8), BitsOf(b, 8)) == XorBits(BitsOf(b, 8), BitsOf(a, 8));
    OctetBitsInjective(Xor(a, b), Xor(b, a));
  }

  /** Which octet was added can be read off the result. */
  lemma XorSolve(a: byte, k: byte, c: byte)
    ensures Xor(a, k) == c <==> k == Xor(a, c)
  {
    XorXor(k, a);
    XorXor(c, a);
    XorCommutes(a, k);
    XorCommutes(a, c);
  }
}
