/** Bit strings, most significant bit first, and the numbers they stand for. */
module Bits {

  type Bits = seq<bool>

  function Pow2(k: nat): (p: nat)
    ensures p >= 1
  {
    if k == 0 then 1 else 2 * Pow2(k - 1)
  }

  /** The low k bits of n. */
  function BitsOf(n: nat, k: nat): (s: Bits)
    ensures |s| == k
    decreases k
  {
    if k == 0 then [] else BitsOf(n / 2, k - 1) + [n % 2 == 1]
  }

  function NatOf(s: Bits): nat {
    if s == [] then 0
    else 2 * NatOf(s[..|s| - 1]) + if s[|s| - 1] then 1 else 0
  }

  function XorBits(a: Bits, b: Bits): (r: Bits)
    requires |a| == |b|
    ensures |r| == |a|
    ensures forall i :: 0 <= i < |a| ==> r[i] == (a[i] != b[i])
  {
    seq(|a|, i requires 0 <= i < |a| => a[i] != b[i])
  }

  function Clear(n: nat): (s: Bits)
    ensures |s| == n
    ensures forall i :: 0 <= i < n ==> !s[i]
  {
    seq(n, _ => false)
  }

  lemma LastBit(n: nat, k: nat)
    requires k > 0
    ensures BitsOf(n, k)[k - 1] == (n % 2 == 1)
  {
  }

  lemma {:induction false} NatOfBound(s: Bits)
    ensures NatOf(s) < Pow2(|s|)
  {
    if s != [] {
      NatOfBound(s[..|s| - 1]);
    }
  }

  lemma {:induction false} BitsOfNatOf(s: Bits)
    ensures BitsOf(NatOf(s), |s|) == s
  {
    if s != [] {
      var t := s[..|s| - 1];
      BitsOfNatOf(t);
      assert NatOf(s) / 2 == NatOf(t);
      assert s == t + [s[|s| - 1]];
    }
  }

  lemma {:induction false} NatOfBitsOf(n: nat, k: nat)
    requires n < Pow2(k)
    ensures NatOf(BitsOf(n, k)) == n
    decreases k
  {
    if k > 0 {
      NatOfBitsOf(n / 2, k - 1);
      assert BitsOf(n, k)[..k - 1] == BitsOf(n / 2, k - 1);
    }
  }

  lemma {:induction false} NatOfFront(s: Bits)
    requires s != []
    ensures NatOf(s) == (if s[0] then Pow2(|s| - 1) else 0) + NatOf(s[1..])
  {
    var t := s[..|s| - 1];
    if t != [] {
      NatOfFront(t);
      assert s[1..][..|s| - 2] == t[1..];
    }
  }

  lemma {:induction false} Pow2Sum(a: nat, b: nat)
    ensures Pow2(a + b) == Pow2(a) * Pow2(b)
  {
    if a > 0 {
      Pow2Sum(a - 1, b);
    }
  }

  lemma Pow2Of32()
    ensures Pow2(31) == 0x8000_0000 && Pow2(32) == 0x1_0000_0000
  {
    assert Pow2(8) == 256;
    Pow2Sum(8, 8);
    Pow2Sum(16, 16);
    assert Pow2(32) == 2 * Pow2(31);
  }

  lemma {:induction false} BitsOfZero(k: nat)
    ensures BitsOf(0, k) == Clear(k)
  {
    if k > 0 {
      BitsOfZero(k - 1);
    }
  }

  lemma BitsOfSmall(n: nat, k: nat)
    requires n < 4
    ensures BitsOf(n, k + 2) == Clear(k) + [n >= 2] + [n % 2 == 1]
  {
    BitsOfZero(k);
    assert n / 2 / 2 == 0 && n / 2 % 2 == (if n >= 2 then 1 else 0);
    assert BitsOf(n / 2, k + 1) == BitsOf(0, k) + [n >= 2];
  }

  /** Exclusive or of the low k bits of two numbers. */
  function XorNat(a: nat, b: nat, k: nat): nat
    decreases k
  {
    if k == 0 then 0 else 2 * XorNat(a / 2, b / 2, k - 1) + (a + b) % 2
  }

  lemma Halves(s: Bits)
    requires s != []
    ensures NatOf(s) / 2 == NatOf(s[..|s| - 1]) && (NatOf(s) % 2 == 1 <==> s[|s| - 1])
  {
  }

  lemma SumParity(a: nat, b: nat)
    ensures (a + b) % 2 == 1 <==> (a % 2 == 1) != (b % 2 == 1)
  {
  }

  lemma {:induction false} XorOnNumbers(x: Bits, y: Bits)
    requires |x| == |y|
    ensures NatOf(XorBits(x, y)) == XorNat(NatOf(x), NatOf(y), |x|)
  {
    if x != [] {
      var n := |x| - 1;
      var u, v := x[..n], y[..n];
      XorOnNumbers(u, v);
      assert XorBits(x, y)[..n] == XorBits(u, v);
      Halves(x);
      Halves(y);
      Halves(XorBits(x, y));
      SumParity(NatOf(x), NatOf(y));
    }
  }

  lemma XorBit(a: nat, b: nat, x: nat, y: nat, k: nat)
    requires x < 2 && y < 2
    ensures XorNat(2 * a + x, 2 * b + y, k + 1) == 2 * XorNat(a, b, k) + (x + y) % 2
  {
    assert (2 * a + x) / 2 == a && (2 * b + y) / 2 == b;
    SumParity(2 * a + x, 2 * b + y);
  }

  lemma {:induction false} XorSame(a: nat, k: nat)
    ensures XorNat(a, a, k) == 0
    decreases k
  {
    if k > 0 {
      XorSame(a / 2, k - 1);
    }
  }

  lemma {:induction false} XorZero(b: nat, k: nat)
    requires b < Pow2(k)
    ensures XorNat(0, b, k) == b
    decreases k
  {
    if k > 0 {
      XorZero(b / 2, k - 1);
    }
  }

  /** One hexadecimal digit at a time. */
  lemma XorFour(a: nat, b: nat, c3: nat, c2: nat, c1: nat, c0: nat,
                d3: nat, d2: nat, d1: nat, d0: nat, k: nat)
    requires c3 < 2 && c2 < 2 && c1 < 2 && c0 < 2 && d3 < 2 && d2 < 2 && d1 < 2 && d0 < 2
    ensures XorNat(16 * a + 8 * c3 + 4 * c2 + 2 * c1 + c0, 16 * b + 8 * d3 + 4 * d2 + 2 * d1 + d0, k + 4)
         == 16 * XorNat(a, b, k) + 8 * ((c3 + d3) % 2) + 4 * ((c2 + d2) % 2) + 2 * ((c1 + d1) % 2) + (c0 + d0) % 2
  {
    XorTwo(a, b, c3, c2, d3, d2, k);
    XorTwo(4 * a + 2 * c3 + c2, 4 * b + 2 * d3 + d2, c1, c0, d1, d0, k + 2);
  }

  lemma XorTwo(a: nat, b: nat, c1: nat, c0: nat, d1: nat, d0: nat, k: nat)
    requires c1 < 2 && c0 < 2 && d1 < 2 && d0 < 2
    ensures XorNat(4 * a + 2 * c1 + c0, 4 * b + 2 * d1 + d0, k + 2)
         == 4 * XorNat(a, b, k) + 2 * ((c1 + d1) % 2) + (c0 + d0) % 2
  {
    XorBit(a, b, c1, d1, k);
    XorBit(2 * a + c1, 2 * b + d1, c0, d0, k + 1);
  }

  /** Zeros behind a bit string multiply its number by a power of two. */
  lemma {:induction false} NatOfShifted(s: Bits, n: nat)
    ensures NatOf(s + Clear(n)) == NatOf(s) * Pow2(n)
  {
    var t := s + Clear(n);
    if n == 0 {
      assert t == s;
    } else {
      NatOfShifted(s, n - 1);
      assert t[..|t| - 1] == s + Clear(n - 1);
    }
  }
}
