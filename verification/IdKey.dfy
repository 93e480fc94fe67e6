/** The key schedule of the tool's own RC4 key, and what it makes of the idblock's
    magic: tools/mk-idblock.py. The tables below only have to pass the checks. */
module IdKey {
  import opened Bits
  import opened Bytes
  import opened Rc4
  import opened Rc4Key
  import opened IdBlock

  // ----------------------------------------------------------------- the tables

  function Pick(c: int, x0: int, x1: int, x2: int, x3: int, x4: int, x5: int, x6: int, x7: int,
                x8: int, x9: int, x10: int, x11: int, x12: int, x13: int, x14: int, x15: int): int
  {
    if c < 8 then
      if c < 4 then if c < 2 then if c < 1 then x0 else x1 else if c < 3 then x2 else x3
      else if c < 6 then if c < 5 then x4 else x5 else if c < 7 then x6 else x7
    else
      if c < 12 then if c < 10 then if c < 9 then x8 else x9 else if c < 11 then x10 else x11
      else if c < 14 then if c < 13 then x12 else x13 else if c < 15 then x14 else x15
  }

  /** The position that round i goes to. */
  function To(i: nat): int {
    if i < 128 then
      if i < 64 then
        if i < 32 then
          if i < 16 then
            Pick(i, 124, 203, 208, 215, 48, 58, 73, 87, 140, 193, 70, 137, 172, 198, 235, 11)
          else
            Pick(i - 16, 151, 246, 11, 34, 139, 165, 196, 226, 39, 108, 1, 84, 135, 177, 230, 22)
        else
          if i < 48 then
            Pick(i - 32, 178, 33, 55, 94, 215, 1, 48, 79, 164, 249, 158, 1, 68, 126, 195, 3)
          else
            Pick(i - 48, 165, 36, 89, 144, 25, 83, 146, 172, 17, 118, 246, 105, 188, 6, 91, 171)
      else
        if i < 96 then
          if i < 80 then
            Pick(i - 64, 103, 246, 59, 130, 3, 77, 96, 174, 35, 85, 26, 157, 0, 82, 183, 224)
          else
            Pick(i - 80, 172, 75, 147, 204, 60, 71, 166, 180, 57, 151, 108, 226, 85, 191, 249, 105)
        else
          if i < 112 then
            Pick(i - 96, 239, 158, 3, 106, 35, 141, 252, 67, 216, 99, 65, 228, 85, 207, 84, 212)
          else
            Pick(i - 112, 192, 127, 244, 107, 52, 174, 240, 110, 19, 184, 173, 96, 119, 1, 69, 199)
    else
      if i < 192 then
        if i < 160 then
          if i < 144 then
            Pick(i - 128, 195, 146, 216, 95, 56, 194, 81, 116, 41, 96, 101, 177, 208, 66, 231, 135)
          else
            Pick(i - 144, 54, 21, 153, 226, 203, 101, 4, 61, 2, 175, 196, 151, 74, 162, 26, 202)
        else
          if i < 176 then
            Pick(i - 160, 230, 213, 35, 202, 71, 114, 209, 127, 84, 41, 78, 197, 44, 179, 63, 209)
          else
            Pick(i - 176, 253, 95, 130, 0, 92, 22, 213, 42, 208, 181, 234, 221, 48, 250, 207, 61)
      else
        if i < 224 then
          if i < 208 then
            Pick(i - 192, 41, 128, 8, 140, 123, 191, 213, 77, 66, 55, 85, 33, 109, 71, 44, 251)
          else
            Pick(i - 208, 240, 191, 148, 107, 47, 65, 32, 75, 187, 192, 21, 40, 27, 227, 216, 200)
        else
          if i < 240 then
            Pick(i - 224, 92, 139, 211, 146, 82, 60, 229, 122, 143, 164, 217, 31, 34, 28, 33, 60)
          else
            Pick(i - 240, 49, 112, 101, 92, 35, 29, 103, 101, 138, 217, 17, 7, 132, 65, 86, 102)
  }

  /** The last earlier round that went to position i, or -1. */
  function Last(i: nat): int {
    if i < 128 then
      if i < 64 then
        if i < 32 then
          if i < 16 then
            Pick(i, -1, -1, -1, -1, -1, -1, -1, -1, -1, -1, -1, -1, -1, -1, -1, -1)
          else
            Pick(i - 16, -1, -1, -1, -1, -1, -1, -1, -1, -1, -1, -1, -1, -1, -1, -1, -1)
        else
          if i < 48 then
            Pick(i - 32, -1, -1, 19, -1, -1, -1, -1, 24, -1, -1, -1, -1, -1, -1, -1, -1)
          else
            Pick(i - 48, 38, -1, -1, -1, -1, -1, -1, 34, -1, -1, 5, -1, -1, -1, -1, -1)
      else
        if i < 96 then
          if i < 80 then
            Pick(i - 64, -1, -1, -1, -1, 44, -1, 10, -1, -1, 6, -1, -1, -1, 69, -1, 39)
          else
            Pick(i - 80, -1, -1, 77, 53, 27, 73, -1, 7, -1, 50, -1, 62, -1, -1, 35, -1)
        else
          if i < 112 then
            Pick(i - 96, 70, -1, -1, -1, -1, -1, -1, 64, -1, 95, 99, -1, 90, -1, -1, -1)
          else
            Pick(i - 112, -1, -1, -1, -1, -1, -1, 57, -1, -1, -1, -1, -1, 0, -1, 45, 113)
    else
      if i < 192 then
        if i < 160 then
          if i < 144 then
            Pick(i - 128, -1, -1, 67, -1, -1, -1, -1, 28, -1, 11, -1, 20, 8, 101, -1, -1)
          else
            Pick(i - 144, 51, -1, 129, 82, -1, -1, -1, 89, -1, 146, -1, -1, -1, 75, 97, -1)
        else
          if i < 176 then
            Pick(i - 160, -1, -1, 157, -1, 40, 48, 86, -1, -1, -1, -1, 63, 80, 122, 117, 153)
          else
            Pick(i - 176, -1, 139, 32, 173, 87, -1, -1, 78, 121, -1, -1, -1, 60, -1, -1, 93)
      else
        if i < 224 then
          if i < 208 then
            Pick(i - 192, 112, 9, 133, 128, 154, 171, 13, 127, -1, -1, 163, 148, 83, -1, -1, 190)
          else
            Pick(i - 208, 184, 175, -1, -1, 111, 198, -1, 36, 130, -1, -1, -1, -1, 187, -1, -1)
        else
          if i < 240 then
            Pick(i - 224, 79, -1, 147, 221, 107, -1, 160, 142, -1, -1, 186, 14, -1, -1, -1, 96)
          else
            Pick(i - 240, 208, -1, -1, -1, 114, -1, 65, -1, -1, 94, 189, 207, 102, 176, -1, -1)
  }

  /** What round i finds at its own position. */
  function Found(i: nat): int {
    if i < 128 then
      if i < 64 then
        if i < 32 then
          if i < 16 then
            Pick(i, 0, 1, 2, 3, 4, 5, 6, 7, 8, 9, 10, 11, 12, 13, 14, 15)
          else
            Pick(i - 16, 16, 17, 18, 19, 20, 21, 22, 23, 24, 25, 26, 27, 28, 29, 30, 31)
        else
          if i < 48 then
            Pick(i - 32, 32, 33, 19, 35, 36, 37, 38, 24, 40, 41, 42, 43, 44, 45, 46, 47)
          else
            Pick(i - 48, 38, 49, 50, 51, 52, 53, 54, 19, 56, 57, 5, 59, 60, 61, 62, 63)
      else
        if i < 96 then
          if i < 80 then
            Pick(i - 64, 64, 65, 66, 67, 44, 69, 10, 71, 72, 6, 74, 75, 76, 69, 78, 24)
          else
            Pick(i - 80, 80, 81, 69, 53, 27, 6, 86, 7, 88, 50, 90, 62, 92, 93, 35, 95)
        else
          if i < 112 then
            Pick(i - 96, 10, 97, 98, 99, 100, 101, 102, 64, 104, 95, 99, 107, 90, 109, 110, 111)
          else
            Pick(i - 112, 112, 113, 114, 115, 116, 117, 57, 119, 120, 121, 122, 123, 0, 125, 45, 113)
    else
      if i < 192 then
        if i < 160 then
          if i < 144 then
            Pick(i - 128, 128, 129, 67, 131, 132, 133, 134, 28, 136, 11, 138, 20, 8, 101, 142, 143)
          else
            Pick(i - 144, 51, 145, 129, 69, 148, 149, 150, 50, 152, 129, 154, 155, 156, 75, 97, 159)
        else
          if i < 176 then
            Pick(i - 160, 160, 161, 75, 163, 40, 38, 86, 167, 168, 169, 170, 63, 80, 122, 117, 129)
          else
            Pick(i - 176, 176, 20, 32, 122, 7, 181, 182, 78, 121, 185, 186, 187, 60, 189, 190, 93)
      else
        if i < 224 then
          if i < 208 then
            Pick(i - 192, 112, 9, 133, 128, 154, 63, 13, 113, 200, 201, 163, 148, 53, 205, 206, 190)
          else
            Pick(i - 208, 121, 129, 210, 211, 111, 13, 214, 36, 67, 217, 218, 219, 220, 187, 222, 223)
        else
          if i < 240 then
            Pick(i - 224, 24, 225, 69, 187, 107, 229, 160, 142, 232, 233, 186, 14, 236, 237, 238, 10)
          else
            Pick(i - 240, 121, 241, 242, 243, 114, 245, 65, 247, 248, 35, 189, 190, 102, 176, 254, 255)
  }

  function Key(i: nat): int {
    Pick(i % 16, 124, 78, 3, 4, 85, 5, 9, 7, 45, 44, 123, 56, 23, 13, 23, 17)
  }

  function Schedule(): Trace {
    Trace(To, Last, Found, Key)
  }

  // ----------------------------------------------------------------- the checks

  /** Round i leaves alone the positions whose last writer came before. */
  predicate LeavesAlone(t: Trace, i: nat) {
    var x := t.to(i);
    && (126 <= i < 256 ==> x != 1)
    && (153 <= i < 256 ==> x != 2)
    && (99 <= i < 256 ==> x != 3)
    && (151 <= i < 256 ==> x != 4)
    && (14 <= i < 256 ==> x != 13)
    && (0 <= i < 13 ==> x != 198)
    && (219 <= i < 256 ==> x != 21)
    && (244 <= i < 256 ==> x != 92)
    && (99 <= i < 256 ==> x != 98)
    && (69 <= i < 98 ==> x != 3)
    && (166 <= i < 256 ==> x != 114)
    && (125 <= i < 256 ==> x != 119)
    && (126 <= i < 256 ==> x != 125)
    && (44 <= i < 125 ==> x != 1)
    && (169 <= i < 256 ==> x != 168)
    && (111 <= i < 168 ==> x != 84)
  }

  ghost predicate FourGood(t: Trace, a: nat) {
    forall i: nat :: a <= i < a + 4 ==> Good(t, i)
  }

  ghost predicate SixteenAlone(t: Trace, a: nat) {
    forall i: nat :: a <= i < a + 16 ==> LeavesAlone(t, i)
  }

  lemma FourAreGood(t: Trace, a: nat)
    requires Good(t, a) && Good(t, a + 1) && Good(t, a + 2) && Good(t, a + 3)
    ensures FourGood(t, a)
  {
  }

  lemma SixteenAreAlone(t: Trace, a: nat)
    requires LeavesAlone(t, a) && LeavesAlone(t, a + 1) && LeavesAlone(t, a + 2) && LeavesAlone(t, a + 3)
    requires LeavesAlone(t, a + 4) && LeavesAlone(t, a + 5) && LeavesAlone(t, a + 6) && LeavesAlone(t, a + 7)
    requires LeavesAlone(t, a + 8) && LeavesAlone(t, a + 9) && LeavesAlone(t, a + 10) && LeavesAlone(t, a + 11)
    requires LeavesAlone(t, a + 12) && LeavesAlone(t, a + 13) && LeavesAlone(t, a + 14) && LeavesAlone(t, a + 15)
    ensures SixteenAlone(t, a)
  {
  }

  lemma Good0()
    ensures FourGood(Schedule(), 0)
  {
    FourAreGood(Schedule(), 0);
  }

  lemma Good4()
    ensures FourGood(Schedule(), 4)
  {
    FourAreGood(Schedule(), 4);
  }

  lemma Good8()
    ensures FourGood(Schedule(), 8)
  {
    FourAreGood(Schedule(), 8);
  }

  lemma Good12()
    ensures FourGood(Schedule(), 12)
  {
    FourAreGood(Schedule(), 12);
  }

  lemma Good16()
    ensures FourGood(Schedule(), 16)
  {
    FourAreGood(Schedule(), 16);
  }

  lemma Good20()
    ensures FourGood(Schedule(), 20)
  {
    FourAreGood(Schedule(), 20);
  }

  lemma Good24()
    ensures FourGood(Schedule(), 24)
  {
    FourAreGood(Schedule(), 24);
  }

  lemma Good28()
    ensures FourGood(Schedule(), 28)
  {
    FourAreGood(Schedule(), 28);
  }

  lemma Good32()
    ensures FourGood(Schedule(), 32)
  {
    FourAreGood(Schedule(), 32);
  }

  lemma Good36()
    ensures FourGood(Schedule(), 36)
  {
    FourAreGood(Schedule(), 36);
  }

  lemma Good40()
    ensures FourGood(Schedule(), 40)
  {
    FourAreGood(Schedule(), 40);
  }

  lemma Good44()
    ensures FourGood(Schedule(), 44)
  {
    FourAreGood(Schedule(), 44);
  }

  lemma Good48()
    ensures FourGood(Schedule(), 48)
  {
    FourAreGood(Schedule(), 48);
  }

  lemma Good52()
    ensures FourGood(Schedule(), 52)
  {
    FourAreGood(Schedule(), 52);
  }

  lemma Good56()
    ensures FourGood(Schedule(), 56)
  {
    FourAreGood(Schedule(), 56);
  }

  lemma Good60()
    ensures FourGood(Schedule(), 60)
  {
    FourAreGood(Schedule(), 60);
  }

  lemma Good64()
    ensures FourGood(Schedule(), 64)
  {
    FourAreGood(Schedule(), 64);
  }

  lemma Good68()
    ensures FourGood(Schedule(), 68)
  {
    FourAreGood(Schedule(), 68);
  }

  lemma Good72()
    ensures FourGood(Schedule(), 72)
  {
    FourAreGood(Schedule(), 72);
  }

  lemma Good76()
    ensures FourGood(Schedule(), 76)
  {
    FourAreGood(Schedule(), 76);
  }

  lemma Good80()
    ensures FourGood(Schedule(), 80)
  {
    FourAreGood(Schedule(), 80);
  }

  lemma Good84()
    ensures FourGood(Schedule(), 84)
  {
    FourAreGood(Schedule(), 84);
  }

  lemma Good88()
    ensures FourGood(Schedule(), 88)
  {
    FourAreGood(Schedule(), 88);
  }

  lemma Good92()
    ensures FourGood(Schedule(), 92)
  {
    FourAreGood(Schedule(), 92);
  }

  lemma Good96()
    ensures FourGood(Schedule(), 96)
  {
    FourAreGood(Schedule(), 96);
  }

  lemma Good100()
    ensures FourGood(Schedule(), 100)
  {
    FourAreGood(Schedule(), 100);
  }

  lemma Good104()
    ensures FourGood(Schedule(), 104)
  {
    FourAreGood(Schedule(), 104);
  }

  lemma Good108()
    ensures FourGood(Schedule(), 108)
  {
    FourAreGood(Schedule(), 108);
  }

  lemma Good112()
    ensures FourGood(Schedule(), 112)
  {
    FourAreGood(Schedule(), 112);
  }

  lemma Good116()
    ensures FourGood(Schedule(), 116)
  {
    FourAreGood(Schedule(), 116);
  }

  lemma Good120()
    ensures FourGood(Schedule(), 120)
  {
    FourAreGood(Schedule(), 120);
  }

  lemma Good124()
    ensures FourGood(Schedule(), 124)
  {
    FourAreGood(Schedule(), 124);
  }

  lemma Good128()
    ensures FourGood(Schedule(), 128)
  {
    FourAreGood(Schedule(), 128);
  }

  lemma Good132()
    ensures FourGood(Schedule(), 132)
  {
    FourAreGood(Schedule(), 132);
  }

  lemma Good136()
    ensures FourGood(Schedule(), 136)
  {
    FourAreGood(Schedule(), 136);
  }

  lemma Good140()
    ensures FourGood(Schedule(), 140)
  {
    FourAreGood(Schedule(), 140);
  }

  lemma Good144()
    ensures FourGood(Schedule(), 144)
  {
    FourAreGood(Schedule(), 144);
  }

  lemma Good148()
    ensures FourGood(Schedule(), 148)
  {
    FourAreGood(Schedule(), 148);
  }

  lemma Good152()
    ensures FourGood(Schedule(), 152)
  {
    FourAreGood(Schedule(), 152);
  }

  lemma Good156()
    ensures FourGood(Schedule(), 156)
  {
    FourAreGood(Schedule(), 156);
  }

  lemma Good160()
    ensures FourGood(Schedule(), 160)
  {
    FourAreGood(Schedule(), 160);
  }

  lemma Good164()
    ensures FourGood(Schedule(), 164)
  {
    FourAreGood(Schedule(), 164);
  }

  lemma Good168()
    ensures FourGood(Schedule(), 168)
  {
    FourAreGood(Schedule(), 168);
  }

  lemma Good172()
    ensures FourGood(Schedule(), 172)
  {
    FourAreGood(Schedule(), 172);
  }

  lemma Good176()
    ensures FourGood(Schedule(), 176)
  {
    FourAreGood(Schedule(), 176);
  }

  lemma Good180()
    ensures FourGood(Schedule(), 180)
  {
    FourAreGood(Schedule(), 180);
  }

  lemma Good184()
    ensures FourGood(Schedule(), 184)
  {
    FourAreGood(Schedule(), 184);
  }

  lemma Good188()
    ensures FourGood(Schedule(), 188)
  {
    FourAreGood(Schedule(), 188);
  }

  lemma Good192()
    ensures FourGood(Schedule(), 192)
  {
    FourAreGood(Schedule(), 192);
  }

  lemma Good196()
    ensures FourGood(Schedule(), 196)
  {
    FourAreGood(Schedule(), 196);
  }

  lemma Good200()
    ensures FourGood(Schedule(), 200)
  {
    FourAreGood(Schedule(), 200);
  }

  lemma Good204()
    ensures FourGood(Schedule(), 204)
  {
    FourAreGood(Schedule(), 204);
  }

  lemma Good208()
    ensures FourGood(Schedule(), 208)
  {
    FourAreGood(Schedule(), 208);
  }

  lemma Good212()
    ensures FourGood(Schedule(), 212)
  {
    FourAreGood(Schedule(), 212);
  }

  lemma Good216()
    ensures FourGood(Schedule(), 216)
  {
    FourAreGood(Schedule(), 216);
  }

  lemma Good220()
    ensures FourGood(Schedule(), 220)
  {
    FourAreGood(Schedule(), 220);
  }

  lemma Good224()
    ensures FourGood(Schedule(), 224)
  {
    FourAreGood(Schedule(), 224);
  }

  lemma Good228()
    ensures FourGood(Schedule(), 228)
  {
    FourAreGood(Schedule(), 228);
  }

  lemma Good232()
    ensures FourGood(Schedule(), 232)
  {
    FourAreGood(Schedule(), 232);
  }

  lemma Good236()
    ensures FourGood(Schedule(), 236)
  {
    FourAreGood(Schedule(), 236);
  }

  lemma Good240()
    ensures FourGood(Schedule(), 240)
  {
    FourAreGood(Schedule(), 240);
  }

  lemma Good244()
    ensures FourGood(Schedule(), 244)
  {
    FourAreGood(Schedule(), 244);
  }

  lemma Good248()
    ensures FourGood(Schedule(), 248)
  {
    FourAreGood(Schedule(), 248);
  }

  lemma Good252()
    ensures FourGood(Schedule(), 252)
  {
    FourAreGood(Schedule(), 252);
  }

  lemma Alone0()
    ensures SixteenAlone(Schedule(), 0)
  {
    SixteenAreAlone(Schedule(), 0);
  }

  lemma Alone16()
    ensures SixteenAlone(Schedule(), 16)
  {
    SixteenAreAlone(Schedule(), 16);
  }

  lemma Alone32()
    ensures SixteenAlone(Schedule(), 32)
  {
    SixteenAreAlone(Schedule(), 32);
  }

  lemma Alone48()
    ensures SixteenAlone(Schedule(), 48)
  {
    SixteenAreAlone(Schedule(), 48);
  }

  lemma Alone64()
    ensures SixteenAlone(Schedule(), 64)
  {
    SixteenAreAlone(Schedule(), 64);
  }

  lemma Alone80()
    ensures SixteenAlone(Schedule(), 80)
  {
    SixteenAreAlone(Schedule(), 80);
  }

  lemma Alone96()
    ensures SixteenAlone(Schedule(), 96)
  {
    SixteenAreAlone(Schedule(), 96);
  }

  lemma Alone112()
    ensures SixteenAlone(Schedule(), 112)
  {
    SixteenAreAlone(Schedule(), 112);
  }

  lemma Alone128()
    ensures SixteenAlone(Schedule(), 128)
  {
    SixteenAreAlone(Schedule(), 128);
  }

  lemma Alone144()
    ensures SixteenAlone(Schedule(), 144)
  {
    SixteenAreAlone(Schedule(), 144);
  }

  lemma Alone160()
    ensures SixteenAlone(Schedule(), 160)
  {
    SixteenAreAlone(Schedule(), 160);
  }

  lemma Alone176()
    ensures SixteenAlone(Schedule(), 176)
  {
    SixteenAreAlone(Schedule(), 176);
  }

  lemma Alone192()
    ensures SixteenAlone(Schedule(), 192)
  {
    SixteenAreAlone(Schedule(), 192);
  }

  lemma Alone208()
    ensures SixteenAlone(Schedule(), 208)
  {
    SixteenAreAlone(Schedule(), 208);
  }

  lemma Alone224()
    ensures SixteenAlone(Schedule(), 224)
  {
    SixteenAreAlone(Schedule(), 224);
  }

  lemma Alone240()
    ensures SixteenAlone(Schedule(), 240)
  {
    SixteenAreAlone(Schedule(), 240);
  }

  // --------------------------------------------------------------- put together

  lemma KeyColumn(i: nat, c: nat)
    requires i % 16 == c
    ensures Key(i) == RC4_KEY[c]
  {
  }

  lemma KeyIs(i: nat)
    ensures Key(i) == KeyAt(RC4_KEY, i)
  {
    KeyColumn(i, i % 16);
    assert |RC4_KEY| == 16;
  }

  lemma AllAreGood(t: Trace)
    requires FourGood(t, 0) && FourGood(t, 4) && FourGood(t, 8) && FourGood(t, 12)
    requires FourGood(t, 16) && FourGood(t, 20) && FourGood(t, 24) && FourGood(t, 28)
    requires FourGood(t, 32) && FourGood(t, 36) && FourGood(t, 40) && FourGood(t, 44)
    requires FourGood(t, 48) && FourGood(t, 52) && FourGood(t, 56) && FourGood(t, 60)
    requires FourGood(t, 64) && FourGood(t, 68) && FourGood(t, 72) && FourGood(t, 76)
    requires FourGood(t, 80) && FourGood(t, 84) && FourGood(t, 88) && FourGood(t, 92)
    requires FourGood(t, 96) && FourGood(t, 100) && FourGood(t, 104) && FourGood(t, 108)
    requires FourGood(t, 112) && FourGood(t, 116) && FourGood(t, 120) && FourGood(t, 124)
    requires FourGood(t, 128) && FourGood(t, 132) && FourGood(t, 136) && FourGood(t, 140)
    requires FourGood(t, 144) && FourGood(t, 148) && FourGood(t, 152) && FourGood(t, 156)
    requires FourGood(t, 160) && FourGood(t, 164) && FourGood(t, 168) && FourGood(t, 172)
    requires FourGood(t, 176) && FourGood(t, 180) && FourGood(t, 184) && FourGood(t, 188)
    requires FourGood(t, 192) && FourGood(t, 196) && FourGood(t, 200) && FourGood(t, 204)
    requires FourGood(t, 208) && FourGood(t, 212) && FourGood(t, 216) && FourGood(t, 220)
    requires FourGood(t, 224) && FourGood(t, 228) && FourGood(t, 232) && FourGood(t, 236)
    requires FourGood(t, 240) && FourGood(t, 244) && FourGood(t, 248) && FourGood(t, 252)
    ensures forall i: nat :: i < 256 ==> Good(t, i)
  {
  }

  lemma AllAreAlone(t: Trace)
    requires SixteenAlone(t, 0) && SixteenAlone(t, 16) && SixteenAlone(t, 32) && SixteenAlone(t, 48)
    requires SixteenAlone(t, 64) && SixteenAlone(t, 80) && SixteenAlone(t, 96) && SixteenAlone(t, 112)
    requires SixteenAlone(t, 128) && SixteenAlone(t, 144) && SixteenAlone(t, 160) && SixteenAlone(t, 176)
    requires SixteenAlone(t, 192) && SixteenAlone(t, 208) && SixteenAlone(t, 224) && SixteenAlone(t, 240)
    ensures forall i: nat :: i < 256 ==> LeavesAlone(t, i)
  {
  }

  lemma ScheduleIsGood()
    ensures AllGood(Schedule(), RC4_KEY)
  {
    Good0(); Good4(); Good8(); Good12(); Good16(); Good20(); Good24(); Good28();
    Good32(); Good36(); Good40(); Good44(); Good48(); Good52(); Good56(); Good60();
    Good64(); Good68(); Good72(); Good76(); Good80(); Good84(); Good88(); Good92();
    Good96(); Good100(); Good104(); Good108(); Good112(); Good116(); Good120(); Good124();
    Good128(); Good132(); Good136(); Good140(); Good144(); Good148(); Good152(); Good156();
    Good160(); Good164(); Good168(); Good172(); Good176(); Good180(); Good184(); Good188();
    Good192(); Good196(); Good200(); Good204(); Good208(); Good212(); Good216(); Good220();
    Good224(); Good228(); Good232(); Good236(); Good240(); Good244(); Good248(); Good252();
    AllAreGood(Schedule());
    forall i: nat | i < 256
      ensures Schedule().k(i) == KeyAt(RC4_KEY, i)
    {
      KeyIs(i);
    }
  }

  lemma ScheduleIsAlone()
    ensures forall i: nat :: i < 256 ==> LeavesAlone(Schedule(), i)
  {
    Alone0(); Alone16(); Alone32(); Alone48();
    Alone64(); Alone80(); Alone96(); Alone112();
    Alone128(); Alone144(); Alone160(); Alone176();
    Alone192(); Alone208(); Alone224(); Alone240();
    AllAreAlone(Schedule());
  }

  // ------------------------------------------------------- the tool's key stream

  /** The rounds that wrote last to the positions the first outputs look at. */
  ghost predicate LastWriters(t: Trace) {
    && t.to(125) == 1 && t.found(125) == 125
    && t.to(152) == 2 && t.found(152) == 152
    && t.to(98) == 3 && t.found(98) == 98
    && t.to(150) == 4 && t.found(150) == 150
    && t.to(13) == 198
    && t.to(218) == 21 && t.found(218) == 218
    && t.to(243) == 92 && t.found(243) == 243
    && t.to(68) == 3 && t.found(68) == 44
    && t.to(165) == 114 && t.found(165) == 38
    && t.to(124) == 119 && t.found(124) == 0
    && t.to(43) == 1 && t.found(43) == 43
    && t.to(168) == 84
    && t.to(110) == 84 && t.found(110) == 110
  }

  lemma QuietPositions(t: Trace, n: nat)
    requires n == 256 && forall i: nat :: i < 256 ==> LeavesAlone(t, i)
    ensures Away(t, 1, 126, n)
    ensures Away(t, 2, 153, n)
    ensures Away(t, 3, 99, n)
    ensures Away(t, 4, 151, n)
    ensures Away(t, 13, 14, n)
    ensures Away(t, 198, 0, 13)
    ensures Away(t, 21, 219, n)
    ensures Away(t, 92, 244, n)
    ensures Away(t, 98, 99, n)
    ensures Away(t, 3, 69, 98)
    ensures Away(t, 114, 166, n)
    ensures Away(t, 119, 125, n)
    ensures Away(t, 125, 126, n)
    ensures Away(t, 1, 44, 125)
    ensures Away(t, 168, 169, n)
    ensures Away(t, 84, 111, 168)
  {
    forall m: nat | m < 256
      ensures 126 <= m < 256 ==> t.to(m) != 1
      ensures 153 <= m < 256 ==> t.to(m) != 2
      ensures 99 <= m < 256 ==> t.to(m) != 3
      ensures 151 <= m < 256 ==> t.to(m) != 4
      ensures 14 <= m < 256 ==> t.to(m) != 13
      ensures 0 <= m < 13 ==> t.to(m) != 198
      ensures 219 <= m < 256 ==> t.to(m) != 21
      ensures 244 <= m < 256 ==> t.to(m) != 92
      ensures 99 <= m < 256 ==> t.to(m) != 98
      ensures 69 <= m < 98 ==> t.to(m) != 3
      ensures 166 <= m < 256 ==> t.to(m) != 114
      ensures 125 <= m < 256 ==> t.to(m) != 119
      ensures 126 <= m < 256 ==> t.to(m) != 125
      ensures 44 <= m < 125 ==> t.to(m) != 1
      ensures 169 <= m < 256 ==> t.to(m) != 168
      ensures 111 <= m < 168 ==> t.to(m) != 84
    {
      assert LeavesAlone(t, m);
    }
  }

  lemma Entries(t: Trace, key: seq<byte>, n: nat)
    requires key != [] && n == |Identity()| && AllGood(t, key) && LastWriters(t)
    requires forall i: nat :: i < 256 ==> LeavesAlone(t, i)
    ensures var s := KeySchedule(key, n).s; s[1] == 125 && s[2] == 152 && s[3] == 98 && s[4] == 150
    ensures var s := KeySchedule(key, n).s; s[13] == 198 && s[21] == 218 && s[92] == 243 && s[98] == 44
    ensures var s := KeySchedule(key, n).s; s[114] == 38 && s[119] == 0 && s[125] == 43 && s[168] == 110
  {
    QuietPositions(t, n);
    KeepsHit(t, key, 1, 125, n);
    KeepsHit(t, key, 2, 152, n);
    KeepsHit(t, key, 3, 98, n);
    KeepsHit(t, key, 4, 150, n);
    KeepsOwn(t, key, 13, n);
    KeepsFirst(t, key, 198, 13);
    KeepsHit(t, key, 21, 218, n);
    KeepsHit(t, key, 92, 243, n);
    KeepsOwn(t, key, 98, n);
    KeepsHit(t, key, 3, 68, 98);
    KeepsHit(t, key, 114, 165, n);
    KeepsHit(t, key, 119, 124, n);
    KeepsOwn(t, key, 125, n);
    KeepsHit(t, key, 1, 43, 125);
    KeepsOwn(t, key, 168, n);
    KeepsHit(t, key, 84, 110, 168);
  }

  lemma FourRounds(g: Generator)
    requires g.i == 0 && g.j == 0
    requires g.s[1] == 125 && g.s[2] == 152 && g.s[3] == 98 && g.s[4] == 150
    requires g.s[13] == 198 && g.s[21] == 218 && g.s[92] == 243 && g.s[98] == 44
    requires g.s[114] == 38 && g.s[119] == 0 && g.s[125] == 43 && g.s[168] == 110
    ensures var g1 := g.Next();
            var g2, g3 := g1.Next(), g1.Next().Next();
            && g1.Output() == 0x6E && g2.Output() == 0x26
            && g3.Output() == 0x2C && g3.Next().Output() == 0xF3
  {
    var g1 := g.Next();
    var g2 := g1.Next();
    var g3 := g2.Next();
    NextRound(g, 1, 125, 125, 43, 168);
    NextRound(g1, 2, 21, 152, 218, 114);
    NextRound(g2, 3, 119, 98, 0, 98);
    NextRound(g3, 4, 13, 150, 198, 92);
  }

  lemma LastWritersAre()
    ensures LastWriters(Schedule())
  {
  }

  /** The key stream of the tool's key begins 6E 26 2C F3. */
  lemma ToolStream()
    ensures KeyByte(RC4_KEY, 0) == 0x6E && KeyByte(RC4_KEY, 1) == 0x26
    ensures KeyByte(RC4_KEY, 2) == 0x2C && KeyByte(RC4_KEY, 3) == 0xF3
  {
    ScheduleIsGood();
    ScheduleIsAlone();
    LastWritersAre();
    Entries(Schedule(), RC4_KEY, |Identity()|);
    FirstKeyBytes(RC4_KEY);
    FourRounds(Start(RC4_KEY));
  }

  // -------------------------------------------------------------- the first word

  lemma FirstSum(k: nat)
    ensures XorNat(0x55, 0x6E, k + 8) == 0x3B
  {
    XorSame(0, k);
    XorFour(0, 0, 0, 1, 0, 1, 0, 1, 1, 0, k);
    XorFour(0x5, 0x6, 0, 1, 0, 1, 1, 1, 1, 0, k + 4);
  }

  lemma SecondSum(k: nat)
    ensures XorNat(0xAA, 0x26, k + 8) == 0x8C
  {
    XorSame(0, k);
    XorFour(0, 0, 1, 0, 1, 0, 0, 0, 1, 0, k);
    XorFour(0xA, 0x2, 1, 0, 1, 0, 0, 1, 1, 0, k + 4);
  }

  lemma ThirdSum(k: nat)
    ensures XorNat(0xF0, 0x2C, k + 8) == 0xDC
  {
    XorSame(0, k);
    XorFour(0, 0, 1, 1, 1, 1, 0, 0, 1, 0, k);
    XorFour(0xF, 0x2, 0, 0, 0, 0, 1, 1, 0, 0, k + 4);
  }

  lemma FourthSum(k: nat)
    ensures XorNat(0x0F, 0xF3, k + 8) == 0xFC
  {
    XorSame(0, k);
    XorFour(0, 0, 0, 0, 0, 0, 1, 1, 1, 1, k);
    XorFour(0x0, 0xF, 1, 1, 1, 1, 0, 0, 1, 1, k + 4);
  }

  ghost predicate Sum(x: byte, y: byte, z: byte) {
    XorNat(x, y, OCTET) == z
  }

  lemma FirstIs()
    ensures Sum(0x55, 0x6E, 0x3B)
  {
    FirstSum(OCTET - 8);
  }

  lemma SecondIs()
    ensures Sum(0xAA, 0x26, 0x8C)
  {
    SecondSum(OCTET - 8);
  }

  lemma ThirdIs()
    ensures Sum(0xF0, 0x2C, 0xDC)
  {
    ThirdSum(OCTET - 8);
  }

  lemma FourthIs()
    ensures Sum(0x0F, 0xF3, 0xFC)
  {
    FourthSum(OCTET - 8);
  }

  lemma EncipherByte(key: seq<byte>, n: nat, x: byte, y: byte, z: byte)
    requires key != [] && Sum(x, y, z) && KeyByte(key, n) == y
    ensures Encipher(key)(x, n) == z
  {
    XorNumber(x, y);
  }

  lemma FourBytes(f: (byte, nat) -> byte, x0: byte, x1: byte, x2: byte, x3: byte)
    ensures MapAt([x0, x1, x2, x3], f) == [f(x0, 0), f(x1, 1), f(x2, 2), f(x3, 3)]
  {
  }

  lemma MagicBytes()
    ensures Pack32(RK_MAGIC) == [0x55, 0xAA, 0xF0, 0x0F]
  {
  }

  /** The idblock's magic goes to the media as 3B 8C DC FC. */
  lemma FirstWord()
    ensures Encrypted(Pack32(RK_MAGIC)) == [0x3B, 0x8C, 0xDC, 0xFC]
  {
    ToolStream();
    MagicBytes();
    FirstIs();
    SecondIs();
    ThirdIs();
    FourthIs();
    EncipherByte(RC4_KEY, 0, 0x55, 0x6E, 0x3B);
    EncipherByte(RC4_KEY, 1, 0xAA, 0x26, 0x8C);
    EncipherByte(RC4_KEY, 2, 0xF0, 0x2C, 0xDC);
    EncipherByte(RC4_KEY, 3, 0x0F, 0xF3, 0xFC);
    FourBytes(Encipher(RC4_KEY), 0x55, 0xAA, 0xF0, 0x0F);
  }
}
