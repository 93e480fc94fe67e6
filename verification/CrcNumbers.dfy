/** The same checksum on the 32-bit numbers that tools/mk-rkparam.py computes with,
    and values that fix its constants. */
module CrcNumbers {
  import opened Bits
  import opened Bytes
  import opened Crc

  const WIDTH: nat := 32

  // ------------------------------------------------------------ definitions

  /** One turn of the inner loop: shifted left and cut to 32 bits, with 0x04C10DB7
      added if the top bit was set. */
  function Turn(c: nat): nat {
    var d := 2 * c % 0x1_0000_0000;
    if c >= 0x8000_0000 then XorNat(d, 0x04C1_0DB7, WIDTH) else d
  }

  function Turns(c: nat, n: nat): nat
    decreases n
  {
    if n == 0 then c else Turns(Turn(c), n - 1)
  }

  /** The outer loop's body: the byte goes in at bit 24. */
  function Byte(c: nat, b: byte): nat {
    Turns(XorNat(c, b * 0x100_0000, WIDTH), 8)
  }

  function Number(data: seq<byte>, c: nat): nat
    decreases data
  {
    if data == [] then c else Number(data[1..], Byte(c, data[0]))
  }

  // -------------------------------------------------------- the same checksum

  lemma PolyNumber()
    ensures NatOf(POLY) == 0x04C1_0DB7
  {
    Pow2Of32();
    NatOfBitsOf(0x04C1_0DB7, WIDTH);
  }

  lemma ShiftIsTurn(c: Register)
    ensures NatOf(Shift(c)) == Turn(NatOf(c))
  {
    ShiftOnNumbers(c);
    PolyNumber();
    XorOnNumbers(c[1..] + [false], POLY);
  }

  lemma {:induction false} ShiftsAreTurns(c: Register, n: nat)
    ensures NatOf(Shifts(c, n)) == Turns(NatOf(c), n)
    decreases n
  {
    if n > 0 {
      ShiftIsTurn(c);
      ShiftsAreTurns(Shift(c), n - 1);
    }
  }

  lemma TopNumber(b: byte)
    ensures NatOf(AtTop(b)) == b * 0x100_0000
  {
    var eight, more := |BitsOf(b, 8)|, 24 as nat;
    assert Pow2(8) == 256;
    NatOfBitsOf(b, 8);
    Pow2Sum(8, 8);
    Pow2Sum(8, 16);
    NatOfShifted(BitsOf(b, 8), 24);
  }

  lemma AbsorbIsByte(c: Register, b: byte)
    ensures NatOf(Absorb(c, b)) == Byte(NatOf(c), b)
  {
    TopNumber(b);
    XorOnNumbers(c, AtTop(b));
    ShiftsAreTurns(XorBits(c, AtTop(b)), 8);
  }

  /** On every text and every initial value the checksum is the number that the
      arithmetic of the tool gives. */
  lemma {:induction false} CrcIsNumber(data: seq<byte>, c: Register)
    ensures NatOf(Crc32(data, c)) == Number(data, NatOf(c))
    decreases data
  {
    if data != [] {
      AbsorbIsByte(c, data[0]);
      CrcIsNumber(data[1..], Absorb(c, data[0]));
    }
  }

  // ------------------------------------------------------------ fixed values

  /** The polynomial added to its double, two hexadecimal digits at a time. */
  lemma SumOfTwoDigits(k: nat)
    ensures XorNat(0x4C, 0x98, k + 8) == 0xD4
  {
    XorSame(0, k);
    XorFour(0, 0, 0, 1, 0, 0, 1, 0, 0, 1, k);
    XorFour(0x4, 0x9, 1, 1, 0, 0, 1, 0, 0, 0, k + 4);
  }

  lemma SumOfFourDigits(k: nat)
    ensures XorNat(0x4C10, 0x9821, k + 16) == 0xD431
  {
    SumOfTwoDigits(k);
    XorFour(0x4C, 0x98, 0, 0, 0, 1, 0, 0, 1, 0, k + 8);
    XorFour(0x4C1, 0x982, 0, 0, 0, 0, 0, 0, 0, 1, k + 12);
  }

  lemma SumOfSixDigits(k: nat)
    ensures XorNat(0x4C_10DB, 0x98_21B6, k + 24) == 0xD4_316D
  {
    SumOfFourDigits(k);
    XorFour(0x4C10, 0x9821, 1, 1, 0, 1, 1, 0, 1, 1, k + 16);
    XorFour(0x4_C10D, 0x9_821B, 1, 0, 1, 1, 0, 1, 1, 0, k + 20);
  }

  lemma SumOfAllDigits(k: nat)
    ensures XorNat(0x04C1_0DB7, 0x0982_1B6E, k + 28) == 0x0D43_16D9
  {
    SumOfSixDigits(k);
    XorFour(0x4C_10DB, 0x98_21B6, 0, 1, 1, 1, 1, 1, 1, 0, k + 24);
  }

  /** A single bit moves up until it falls out at the top. */
  lemma {:induction false} Climb(k: nat, n: nat, m: nat)
    requires k + n <= 31
    ensures Turns(Pow2(k), n + m) == Turns(Pow2(k + n), m)
    decreases n
  {
    if n > 0 {
      PowersBelow(k);
      assert Turn(Pow2(k)) == Pow2(k + 1);
      Climb(k + 1, n - 1, m);
    }
  }

  lemma {:induction false} PowersBelow(k: nat)
    requires k <= 31
    ensures Pow2(k) <= 0x8000_0000 && (k < 31 ==> Pow2(k) < 0x8000_0000)
    decreases 31 - k
  {
    if k < 31 {
      PowersBelow(k + 1);
    } else {
      Pow2Of32();
    }
  }

  /** A one that falls out leaves the polynomial. */
  lemma FallsOut(m: nat)
    ensures Turns(0x8000_0000, m + 1) == Turns(0x04C1_0DB7, m)
  {
    Pow2Of32();
    XorZero(0x04C1_0DB7, WIDTH);
    assert Turn(0x8000_0000) == 0x04C1_0DB7;
  }

  lemma {:induction false} OneBitTurns(k: nat, n: nat, m: nat, steps: nat)
    requires k + n == 31 && steps == n + (m + 1)
    ensures Turns(Pow2(k), steps) == Turns(0x04C1_0DB7, m)
  {
    Climb(k, n, m + 1);
    Pow2Of32();
    FallsOut(m);
  }

  lemma EntryNumber(i: byte, steps: nat)
    ensures NatOf(Shifts(AtTop(i), steps)) == Turns(i * 0x100_0000, steps)
  {
    TopNumber(i);
    ShiftsAreTurns(AtTop(i), steps);
  }

  /** The table entry of an octet with one bit: the bit climbs to the top, falls out,
      and what it leaves goes through the remaining turns. */
  lemma OneBitEntry(i: byte, k: nat, n: nat, m: nat, steps: nat)
    requires i * 0x100_0000 == Pow2(k) && k + n == 31 && steps == n + (m + 1)
    ensures NatOf(Shifts(AtTop(i), steps)) == Turns(0x04C1_0DB7, m)
  {
    EntryNumber(i, steps);
    OneBitTurns(k, n, m, steps);
  }

  lemma PowersOf24()
    ensures Pow2(24) == 0x100_0000 && Pow2(25) == 0x200_0000
  {
    assert Pow2(8) == 256;
    Pow2Sum(8, 8);
    Pow2Sum(8, 16);
    assert Pow2(25) == 2 * Pow2(24);
  }

  lemma FirstEntry(steps: nat)
    requires steps == 8
    ensures NatOf(Shifts(AtTop(1), steps)) == 0x04C1_0DB7
  {
    PowersOf24();
    OneBitEntry(1, 24, steps - 1, 0, steps);
  }

  lemma SecondEntry(steps: nat)
    requires steps == 8
    ensures NatOf(Shifts(AtTop(2), steps)) == 0x0982_1B6E
  {
    PowersOf24();
    OneBitEntry(2, 25, steps - 2, 1, steps);
    assert Turns(0x04C1_0DB7, 1) == Turns(Turn(0x04C1_0DB7), 0);
  }

  lemma TopOfThree(k: nat)
    requires k == 6
    ensures AtTop(3) == XorBits(AtTop(1), AtTop(2))
  {
    BitsOfSmall(1, k);
    BitsOfSmall(2, k);
    BitsOfSmall(3, k);
    var z := Clear(k);
    var a, b, c := z + [false] + [true], z + [true] + [false], z + [true] + [true];
    assert AtTop(1) == a + Clear(24) && AtTop(2) == b + Clear(24) && AtTop(3) == c + Clear(24);
  }

  lemma SumNumber(a: Register, b: Register)
    requires NatOf(a) == 0x04C1_0DB7 && NatOf(b) == 0x0982_1B6E
    ensures NatOf(XorBits(a, b)) == 0x0D43_16D9
  {
    XorOnNumbers(a, b);
    SumOfAllDigits(WIDTH - 28);
  }

  lemma ThirdEntry(steps: nat)
    requires steps == 8
    ensures NatOf(Shifts(AtTop(3), steps)) == 0x0D43_16D9
  {
    FirstEntry(steps);
    SecondEntry(steps);
    TopOfThree(steps - 2);
    ShiftsLinear(AtTop(1), AtTop(2), steps);
    SumNumber(Shifts(AtTop(1), steps), Shifts(AtTop(2), steps));
  }

  /** The first entries of the table, as rknand-write-loader.py lists them. */
  lemma TableValues(t: seq<Register>)
    requires IsTable(t)
    ensures NatOf(t[1]) == 0x04C1_0DB7
    ensures NatOf(t[2]) == 0x0982_1B6E
    ensures NatOf(t[3]) == 0x0D43_16D9
  {
    FirstEntry(8);
    SecondEntry(8);
    ThirdEntry(8);
  }

  /** The checksum of the one-byte text 01. */
  lemma CheckValue()
    ensures NatOf(Crc32([1], Clear(WIDTH))) == 0x04C1_0DB7
  {
    var c := Clear(WIDTH);
    FirstEntry(8);
    assert XorBits(c, AtTop(1)) == AtTop(1);
    assert [1][1..] == [];
    assert Crc32([1], c) == Absorb(c, 1);
  }
}
