/** The Rockchip CRC-32 (polynomial 0x04C10DB7, most significant bit first,
    initial value 0, no final inversion), which the tools implement twice: bit by
    bit in tools/mk-rkparam.py and with a 256-entry table in
    tools/rknand-write-loader.py. The 32-bit register is a bit string. */
module Crc {
  import opened Bits
  import opened Bytes

  type Register = c: Bits | |c| == 32 witness Clear(32)

  const POLY: Register := BitsOf(0x04C1_0DB7, 32)

  // ------------------------------------------------------------ definitions

  /** One step of the register: shift left by one, and add the polynomial when a
      one falls out at the top. */
  function Shift(c: Register): Register {
    var d := c[1..] + [false];
    if c[0] then XorBits(d, POLY) else d
  }

  function Shifts(c: Register, n: nat): Register
    decreases n
  {
    if n == 0 then c else Shifts(Shift(c), n - 1)
  }

  /** An octet placed in the top 8 bits of a register. */
  function AtTop(b: byte): Register {
    BitsOf(b, 8) + Clear(24)
  }

  function Absorb(c: Register, b: byte): Register {
    Shifts(XorBits(c, AtTop(b)), 8)
  }

  function Crc32(data: seq<byte>, c: Register): Register
    decreases data
  {
    if data == [] then c else Crc32(data[1..], Absorb(c, data[0]))
  }

  // ----------------------------------------------------- algebra of the step

  lemma PolyIsOdd()
    ensures POLY[31]
  {
    LastBit(0x04C1_0DB7, 32);
  }

  /** The step on the numbers the tools compute with: the top bit is set exactly
      from 2^31 up, and dropping it while shifting doubles modulo 2^32. */
  lemma ShiftOnNumbers(c: Register)
    ensures c[0] <==> NatOf(c) >= 0x8000_0000
    ensures NatOf(c[1..] + [false]) == 2 * NatOf(c) % 0x1_0000_0000
  {
    Pow2Of32();
    NatOfFront(c);
    NatOfBound(c[1..]);
    assert (c[1..] + [false])[..31] == c[1..];
  }

  lemma ShiftLinear(a: Register, b: Register)
    ensures Shift(XorBits(a, b)) == XorBits(Shift(a), Shift(b))
  {
  }

  /** The polynomial is odd, so a step loses nothing. */
  lemma ShiftInjective(a: Register, b: Register)
    requires Shift(a) == Shift(b)
    ensures a == b
  {
    PolyIsOdd();
    assert Shift(a)[31] == a[0] && Shift(b)[31] == b[0];
    forall i | 1 <= i < 32
      ensures a[i] == b[i]
    {
      assert Shift(a)[i - 1] == Shift(b)[i - 1];
    }
  }

  lemma {:induction false} ShiftsLinear(a: Register, b: Register, n: nat)
    ensures Shifts(XorBits(a, b), n) == XorBits(Shifts(a, n), Shifts(b, n))
    decreases n
  {
    if n > 0 {
      ShiftLinear(a, b);
      ShiftsLinear(Shift(a), Shift(b), n - 1);
    }
  }

  lemma {:induction false} ShiftsInjective(a: Register, b: Register, n: nat)
    requires Shifts(a, n) == Shifts(b, n)
    ensures a == b
    decreases n
  {
    if n > 0 {
      ShiftsInjective(Shift(a), Shift(b), n - 1);
      ShiftInjective(a, b);
    }
  }

  lemma {:induction false} ShiftsAgain(c: Register, n: nat)
    ensures Shifts(c, n + 1) == Shift(Shifts(c, n))
    decreases n
  {
    if n > 0 {
      ShiftsAgain(Shift(c), n - 1);
    }
  }

  /** Shifting a register whose top n bits are clear moves its bits up by n. */
  lemma {:induction false} ShiftsClearTop(c: Register, n: nat)
    requires n <= 32 && c[..n] == Clear(n)
    ensures Shifts(c, n) == c[n..] + Clear(n)
    decreases n
  {
    if n == 0 {
      assert c[0..] + Clear(0) == c;
    } else {
      assert c[..n][0] == c[0];
      forall i | 1 <= i < n
        ensures !c[i]
      {
        assert c[..n][i] == c[i];
      }
      ShiftsClearTop(Shift(c), n - 1);
    }
  }

  // ------------------------------------------------- chaining and linearity

  /** The checksum of a concatenation is the checksum of the second part started
      from the checksum of the first. */
  lemma {:induction false} Chains(a: seq<byte>, b: seq<byte>, c: Register)
    ensures Crc32(a + b, c) == Crc32(b, Crc32(a, c))
    decreases a
  {
    if a == [] {
      assert a + b == b;
    } else {
      assert (a + b)[1..] == a[1..] + b;
      Chains(a[1..], b, Absorb(c, a[0]));
    }
  }

  function XorBytes(a: seq<byte>, b: seq<byte>): (r: seq<byte>)
    requires |a| == |b|
    ensures |r| == |a|
  {
    seq(|a|, i requires 0 <= i < |a| => Xor(a[i], b[i]))
  }

  lemma AbsorbLinear(c: Register, d: Register, x: byte, y: byte)
    ensures Absorb(XorBits(c, d), Xor(x, y)) == XorBits(Absorb(c, x), Absorb(d, y))
  {
    assert AtTop(Xor(x, y)) == XorBits(AtTop(x), AtTop(y));
    assert XorBits(XorBits(c, d), AtTop(Xor(x, y)))
        == XorBits(XorBits(c, AtTop(x)), XorBits(d, AtTop(y)));
    ShiftsLinear(XorBits(c, AtTop(x)), XorBits(d, AtTop(y)), 8);
  }

  /** On inputs of equal length the checksum commutes with exclusive or; with all
      initial values 0 this is linearity over GF(2). */
  lemma {:induction false} Linear(a: seq<byte>, b: seq<byte>, c: Register, d: Register)
    requires |a| == |b|
    ensures Crc32(XorBytes(a, b), XorBits(c, d)) == XorBits(Crc32(a, c), Crc32(b, d))
    decreases a
  {
    if a != [] {
      assert XorBytes(a, b)[1..] == XorBytes(a[1..], b[1..]);
      AbsorbLinear(c, d, a[0], b[0]);
      Linear(a[1..], b[1..], Absorb(c, a[0]), Absorb(d, b[0]));
    }
  }

  // -------------------------------------------------- the two implementations

  /** tools/mk-rkparam.py, rk_crc32. */
  method BitwiseCrc32(data: seq<byte>) returns (crc: Register)
    ensures crc == Crc32(data, Clear(32))
  {
    crc := Clear(32);
    for i := 0 to |data|
      invariant Crc32(data[i..], crc) == Crc32(data, Clear(32))
    {
      crc := XorBits(crc, AtTop(data[i]));
      ghost var start := crc;
      for k := 0 to 8
        invariant crc == Shifts(start, k)
      {
        ShiftsAgain(start, k);
        crc := if crc[0] then XorBits(crc[1..] + [false], POLY) else crc[1..] + [false];
      }
      assert data[i..][1..] == data[i + 1..];
    }
  }

  ghost predicate IsTable(t: seq<Register>) {
    |t| == 256 && forall i :: 0 <= i < 256 ==> t[i] == Shifts(AtTop(i), 8)
  }

  /** tools/rknand-write-loader.py, _rk_crc_table. */
  method CrcTable() returns (t: seq<Register>)
    ensures IsTable(t)
  {
    t := [];
    for i := 0 to 256
      invariant |t| == i
      invariant forall k :: 0 <= k < i ==> t[k] == Shifts(AtTop(k), 8)
    {
      var c := AtTop(i);
      for k := 0 to 8
        invariant c == Shifts(AtTop(i), k)
      {
        ShiftsAgain(AtTop(i), k);
        c := if c[0] then XorBits(c[1..] + [false], POLY) else c[1..] + [false];
      }
      t := t + [c];
    }
  }

  /** What one table lookup replaces: the octet that leaves at the top, added to
      the octet that enters, selects the eight polynomial additions at once. */
  lemma LookupIsAbsorb(c: Register, b: byte, i: byte)
    requires BitsOf(i, 8) == XorBits(BitsOf(b, 8), c[..8])
    ensures Absorb(c, b) == XorBits(Shifts(AtTop(i), 8), c[8..] + Clear(8))
  {
    var low := Clear(8) + c[8..];
    assert low[..8] == Clear(8);
    ShiftsClearTop(low, 8);
    assert low[8..] == c[8..];
    assert XorBits(c, AtTop(b)) == XorBits(AtTop(i), low);
    ShiftsLinear(AtTop(i), low, 8);
  }

  function TopOctet(c: Register): (b: byte)
    ensures BitsOf(b, 8) == c[..8]
  {
    OctetOfBits(c[..8])
  }

  /** tools/rknand-write-loader.py, rk_crc32: equal to the bitwise form on every
      byte string and for every initial value. */
  method TableCrc32(data: seq<byte>, init: Register) returns (crc: Register)
    ensures crc == Crc32(data, init)
  {
    var table := CrcTable();
    crc := init;
    for n := 0 to |data|
      invariant Crc32(data[n..], crc) == Crc32(data, init)
    {
      var i := Xor(data[n], TopOctet(crc));
      LookupIsAbsorb(crc, data[n], i);
      crc := XorBits(table[i], crc[8..] + Clear(8));
      assert data[n..][1..] == data[n + 1..];
    }
  }

  // --------------------------------------------------------- burst detection

  /** Feed one message bit to the register. */
  function BitIn(c: Register, x: bool): Register {
    Shift(c[0 := c[0] != x])
  }

  function Feed(c: Register, bits: Bits): Register
    decreases bits
  {
    if bits == [] then c else Feed(BitIn(c, bits[0]), bits[1..])
  }

  /** A message as the bits that go into the register. */
  function MessageBits(data: seq<byte>): (bits: Bits)
    ensures |bits| == 8 * |data|
  {
    if data == [] then [] else BitsOf(data[0], 8) + MessageBits(data[1..])
  }

  lemma {:induction false} FeedConcat(c: Register, a: Bits, b: Bits)
    ensures Feed(c, a + b) == Feed(Feed(c, a), b)
    decreases a
  {
    if a == [] {
      assert a + b == b;
    } else {
      assert (a + b)[1..] == a[1..] + b;
      FeedConcat(BitIn(c, a[0]), a[1..], b);
    }
  }

  /** Up to 32 bits can be added to the register at once and shifted through. */
  lemma {:induction false} FeedAtOnce(c: Register, d: Bits)
    requires |d| <= 32
    ensures Feed(c, d) == Shifts(XorBits(c, d + Clear(32 - |d|)), |d|)
    decreases d
  {
    if d == [] {
      assert XorBits(c, d + Clear(32)) == c;
    } else {
      var e := d[1..];
      var w := d + Clear(32 - |d|);
      var first, rest := [d[0]] + Clear(31), [false] + w[1..];
      assert XorBits(c, w) == XorBits(XorBits(c, first), rest);
      assert XorBits(c, first) == c[0 := c[0] != d[0]];
      ShiftLinear(XorBits(c, first), rest);
      assert Shift(rest) == e + Clear(32 - |e|);
      FeedAtOnce(BitIn(c, d[0]), e);
    }
  }

  lemma {:induction false} FeedInjective(a: Register, b: Register, bits: Bits)
    requires Feed(a, bits) == Feed(b, bits)
    ensures a == b
    decreases bits
  {
    if bits != [] {
      var x := bits[0];
      FeedInjective(BitIn(a, x), BitIn(b, x), bits[1..]);
      ShiftInjective(a[0 := a[0] != x], b[0 := b[0] != x]);
      assert a[0 := a[0] != x][0] == b[0 := b[0] != x][0];
      forall i | 1 <= i < 32
        ensures a[i] == b[i]
      {
        assert a[0 := a[0] != x][i] == b[0 := b[0] != x][i];
      }
    }
  }

  lemma XorBitsDiffer(c: Bits, x: Bits, y: Bits)
    requires |c| == |x| == |y| && x != y
    ensures XorBits(c, x) != XorBits(c, y)
  {
    var i :| 0 <= i < |x| && x[i] != y[i];
    assert XorBits(c, x)[i] != XorBits(c, y)[i];
  }

  lemma PaddedDiffer(d: Bits, e: Bits)
    requires |d| == |e| <= 32 && d != e
    ensures d + Clear(32 - |d|) != e + Clear(32 - |e|)
  {
    assert (d + Clear(32 - |d|))[..|d|] == d && (e + Clear(32 - |e|))[..|e|] == e;
  }

  lemma ShiftsDiffer(a: Register, b: Register, n: nat)
    requires a != b
    ensures Shifts(a, n) != Shifts(b, n)
  {
    if Shifts(a, n) == Shifts(b, n) {
      ShiftsInjective(a, b, n);
    }
  }

  /** Two different runs of at most 32 bits leave different registers. */
  lemma ShortRunsDiffer(c: Register, d: Bits, e: Bits)
    requires |d| == |e| <= 32 && d != e
    ensures Feed(c, d) != Feed(c, e)
  {
    var n := |d|;
    var x, y := d + Clear(32 - n), e + Clear(32 - n);
    PaddedDiffer(d, e);
    XorBitsDiffer(c, x, y);
    ShiftsDiffer(XorBits(c, x), XorBits(c, y), n);
    FeedAtOnce(c, d);
    FeedAtOnce(c, e);
  }

  lemma AbsorbIsFeed(c: Register, b: byte)
    ensures Absorb(c, b) == Feed(c, BitsOf(b, 8))
  {
    FeedAtOnce(c, BitsOf(b, 8));
  }

  lemma {:induction false} CrcIsFeed(data: seq<byte>, c: Register)
    ensures Crc32(data, c) == Feed(c, MessageBits(data))
    decreases data
  {
    if data != [] {
      AbsorbIsFeed(c, data[0]);
      FeedConcat(c, BitsOf(data[0], 8), MessageBits(data[1..]));
      CrcIsFeed(data[1..], Absorb(c, data[0]));
    }
  }

  lemma {:induction false} MessageBitsInjective(a: seq<byte>, b: seq<byte>)
    requires |a| == |b| && MessageBits(a) == MessageBits(b)
    ensures a == b
    decreases a
  {
    if a != [] {
      assert BitsOf(a[0], 8) == MessageBits(a)[..8];
      assert BitsOf(b[0], 8) == MessageBits(b)[..8];
      OctetBitsInjective(a[0], b[0]);
      assert MessageBits(a[1..]) == MessageBits(a)[8..];
      assert MessageBits(b[1..]) == MessageBits(b)[8..];
      MessageBitsInjective(a[1..], b[1..]);
      assert a == [a[0]] + a[1..] && b == [b[0]] + b[1..];
    }
  }

  /** Every bit outside the 32 that start at bit `at` is the same. */
  ghost predicate SameOutside(a: Bits, b: Bits, at: nat)
    requires |a| == |b|
  {
    forall k :: 0 <= k < |a| && (k < at || at + 32 <= k) ==> a[k] == b[k]
  }

  lemma ShortRunsDifferInContext(c: Register, p: Bits, d: Bits, e: Bits, s: Bits)
    requires |d| == |e| <= 32 && d != e
    ensures Feed(c, p + d + s) != Feed(c, p + e + s)
  {
    FeedConcat(c, p + d, s);
    FeedConcat(c, p + e, s);
    FeedConcat(c, p, d);
    FeedConcat(c, p, e);
    ShortRunsDiffer(Feed(c, p), d, e);
    if Feed(c, p + d + s) == Feed(c, p + e + s) {
      FeedInjective(Feed(c, p + d), Feed(c, p + e), s);
    }
  }

  lemma SplitAround(x: Bits, y: Bits, at: nat) returns (p: Bits, d: Bits, e: Bits, s: Bits)
    requires |x| == |y| && SameOutside(x, y, at)
    ensures |d| == |e| <= 32
    ensures x == p + d + s && y == p + e + s
  {
    var lo := if at <= |x| then at else |x|;
    var hi := if at + 32 <= |x| then at + 32 else |x|;
    p, d, e, s := x[..lo], x[lo..hi], y[lo..hi], x[hi..];
  }

  lemma SameOutsideMiddle(p: Bits, d: Bits, e: Bits, s: Bits)
    requires |d| == |e| <= 32
    ensures SameOutside(p + d + s, p + e + s, |p|)
  {
  }

  /** Any corruption confined to 32 consecutive message bits, wherever it starts,
      changes the checksum. */
  lemma BurstDetected(a: seq<byte>, b: seq<byte>, c: Register, at: nat)
    requires |a| == |b| && a != b
    requires SameOutside(MessageBits(a), MessageBits(b), at)
    ensures Crc32(a, c) != Crc32(b, c)
  {
    var x, y := MessageBits(a), MessageBits(b);
    if x == y {
      MessageBitsInjective(a, b);
    }
    var p, d, e, s := SplitAround(x, y, at);
    ShortRunsDifferInContext(c, p, d, e, s);
    CrcIsFeed(a, c);
    CrcIsFeed(b, c);
  }

  lemma {:induction false} MessageBitsConcat(a: seq<byte>, b: seq<byte>)
    ensures MessageBits(a + b) == MessageBits(a) + MessageBits(b)
    decreases a
  {
    if a == [] {
      assert a + b == b;
    } else {
      assert (a + b)[1..] == a[1..] + b;
      MessageBitsConcat(a[1..], b);
    }
  }

  lemma MessageBitsConcat3(p: seq<byte>, d: seq<byte>, s: seq<byte>)
    ensures MessageBits(p + d + s) == MessageBits(p) + MessageBits(d) + MessageBits(s)
  {
    MessageBitsConcat(p, d);
    MessageBitsConcat(p + d, s);
  }

  lemma CutTwice(a: seq<byte>, lo: nat, hi: nat)
    requires lo <= hi <= |a|
    ensures a == a[..lo] + a[lo..hi] + a[hi..]
  {
  }

  /** In particular, two texts that differ, but only inside four consecutive
      bytes, never share a checksum. */
  lemma FourByteWindowDetected(a: seq<byte>, b: seq<byte>, c: Register, at: nat)
    requires |a| == |b| && a != b
    requires forall k :: 0 <= k < |a| && (k < at || at + 4 <= k) ==> a[k] == b[k]
    ensures Crc32(a, c) != Crc32(b, c)
  {
    var lo := if at <= |a| then at else |a|;
    var hi := if at + 4 <= |a| then at + 4 else |a|;
    var p, d, e, s := a[..lo], a[lo..hi], b[lo..hi], a[hi..];
    assert b[..lo] == p && b[hi..] == s;
    CutTwice(a, lo, hi);
    CutTwice(b, lo, hi);
    MessageBitsConcat3(p, d, s);
    MessageBitsConcat3(p, e, s);
    SameOutsideMiddle(MessageBits(p), MessageBits(d), MessageBits(e), MessageBits(s));
    BurstDetected(a, b, c, 8 * lo);
  }

  lemma {:induction false} FeedNothing(n: nat)
    ensures Feed(Clear(32), Clear(n)) == Clear(32)
  {
    if n > 0 {
      assert Clear(n)[1..] == Clear(n - 1);
      assert BitIn(Clear(32), false) == Clear(32);
      FeedNothing(n - 1);
    }
  }

  lemma FeedSelf(p: Register)
    ensures Feed(p, p) == Clear(32)
  {
    FeedAtOnce(p, p);
    assert XorBits(p, p + Clear(0)) == Clear(32);
    FeedAtOnce(Clear(32), Clear(32));
    assert XorBits(Clear(32), Clear(32) + Clear(0)) == Clear(32);
    FeedNothing(32);
  }

  lemma OneAlone()
    ensures BitIn(Clear(32), true) == POLY
  {
    var one := Clear(32)[0 := true];
    assert one[1..] + [false] == Clear(32);
    assert forall p: Register :: XorBits(Clear(32), p) == p;
  }

  /** The polynomial with its leading one: 33 bits that leave a clear register clear. */
  const GENERATOR: Bits := [true] + POLY

  lemma GeneratorVanishes()
    ensures Feed(Clear(32), GENERATOR) == Clear(32)
  {
    OneAlone();
    FeedSelf(POLY);
    assert GENERATOR[1..] == POLY;
  }

  lemma BitInLinear(c: Register, d: Register, x: bool, y: bool)
    ensures BitIn(XorBits(c, d), x != y) == XorBits(BitIn(c, x), BitIn(d, y))
  {
    var e, f := c[0 := c[0] != x], d[0 := d[0] != y];
    var both := XorBits(c, d);
    assert both[0 := both[0] != (x != y)] == XorBits(e, f);
    ShiftLinear(e, f);
  }

  lemma {:induction false} FeedLinear(c: Register, d: Register, x: Bits, y: Bits)
    requires |x| == |y|
    ensures Feed(XorBits(c, d), XorBits(x, y)) == XorBits(Feed(c, x), Feed(d, y))
    decreases x
  {
    if x != [] {
      BitInLinear(c, d, x[0], y[0]);
      assert XorBits(x, y)[1..] == XorBits(x[1..], y[1..]);
      FeedLinear(BitIn(c, x[0]), BitIn(d, y[0]), x[1..], y[1..]);
    }
  }

  /** The message with the given bits. */
  lemma {:induction false} MessageOf(bits: Bits, n: nat) returns (data: seq<byte>)
    requires |bits| == 8 * n
    ensures |data| == n && MessageBits(data) == bits
    decreases n
  {
    data := [];
    if n > 0 {
      var rest := MessageOf(bits[8..], n - 1);
      data := [OctetOfBits(bits[..8])] + rest;
      assert data[1..] == rest;
      assert bits == bits[..8] + bits[8..];
    }
  }

  /** The generator at bit `at`, zeros elsewhere. */
  function Mask(size: nat, at: nat): (m: Bits)
    requires at + 33 <= size
    ensures |m| == size && m[at]
    ensures forall k :: 0 <= k < at || at + 33 <= k < size ==> !m[k]
  {
    Clear(at) + GENERATOR + Clear(size - at - 33)
  }

  lemma MaskVanishes(size: nat, at: nat)
    requires at + 33 <= size
    ensures Feed(Clear(32), Mask(size, at)) == Clear(32)
  {
    FeedConcat(Clear(32), Clear(at) + GENERATOR, Clear(size - at - 33));
    FeedConcat(Clear(32), Clear(at), GENERATOR);
    FeedNothing(at);
    GeneratorVanishes();
    FeedNothing(size - at - 33);
  }

  lemma MaskUnseen(c: Register, x: Bits, at: nat)
    requires at + 33 <= |x|
    ensures Feed(c, XorBits(x, Mask(|x|, at))) == Feed(c, x)
  {
    FeedLinear(c, Clear(32), x, Mask(|x|, at));
    MaskVanishes(|x|, at);
    assert XorBits(c, Clear(32)) == c;
    assert XorBits(Feed(c, x), Clear(32)) == Feed(c, x);
  }

  /** 32 bits is the exact limit: in any 33 consecutive bits of any message there is
      a change that the checksum does not see. */
  lemma ThirtyThreeBitsCanPass(a: seq<byte>, c: Register, at: nat) returns (b: seq<byte>)
    requires at + 33 <= 8 * |a|
    ensures |b| == |a| && b != a
    ensures forall k :: 0 <= k < 8 * |a| && (k < at || at + 33 <= k) ==> MessageBits(b)[k] == MessageBits(a)[k]
    ensures Crc32(b, c) == Crc32(a, c)
  {
    var x, m := MessageBits(a), Mask(8 * |a|, at);
    b := MessageOf(XorBits(x, m), |a|);
    assert MessageBits(b)[at] != x[at];
    MaskUnseen(c, x, at);
    CrcIsFeed(a, c);
    CrcIsFeed(b, c);
  }
}
