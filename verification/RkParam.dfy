/** The Rockchip `parameter` block: tools/mk-rkparam.py. Texts are the encoded
    byte strings. */
module RkParam {
  import opened Wrappers
  import opened Bits
  import opened Bytes
  import opened Crc

  const TAG: nat := 0x4D52_4150

  datatype Partition = Partition(name: seq<byte>, start: nat, size: Option<nat>)

  datatype Error = TooLong(size: nat) | Truncated

  /** What inspect decodes; `accepted` is its return value. */
  datatype Report = Report(tag: nat, length: nat, text: seq<byte>, crc: nat, accepted: bool)

  // ------------------------------------------------------------ definitions

  function Ascii(s: string): (r: seq<byte>)
    ensures |r| == |s|
  {
    seq(|s|, i requires 0 <= i < |s| =>
      if s[i] < 128 as char then s[i] as int else '?' as int)
  }

  const COMMA: byte := ',' as int
  const AT: byte := '@' as int
  const OPEN: byte := '(' as int
  const CLOSE: byte := ')' as int
  const NEWLINE: byte := '\n' as int
  const DASH: byte := '-' as int

  function HexDigit(d: nat): (c: byte)
    requires d < 16
  {
    if d < 10 then '0' as int + d else 'a' as int + (d - 10)
  }

  function Hex(n: nat): seq<byte> {
    if n < 16 then [HexDigit(n)] else Hex(n / 16) + [HexDigit(n % 16)]
  }

  function Padding(k: nat): (z: seq<byte>)
    ensures |z| == k
    ensures forall i :: 0 <= i < k ==> z[i] == '0' as int
  {
    seq(k, _ => '0' as int)
  }

  /** The format 0x{n:08x}. */
  function Hex8(n: nat): seq<byte> {
    var h := Hex(n);
    ['0' as int, 'x' as int] + (Padding(if |h| < 8 then 8 - |h| else 0) + h)
  }

  function SizeField(size: Option<nat>): seq<byte> {
    match size
    case Some(n) => Hex8(n)
    case None => [DASH]
  }

  /** An entry up to and including the parenthesis in front of the name. */
  function Head(size: Option<nat>, start: nat): seq<byte> {
    SizeField(size) + [AT] + (Hex8(start) + [OPEN])
  }

  function Entry(p: Partition): seq<byte> {
    Head(p.size, p.start) + (p.name + [CLOSE])
  }

  /** What follows an entry: the remaining entries, each after a comma, and the
      newline that ends the text. */
  function Following(parts: seq<Partition>): seq<byte> {
    if parts == [] then [NEWLINE] else [COMMA] + (Entry(parts[0]) + Following(parts[1..]))
  }

  function MtdParts(parts: seq<Partition>): seq<byte> {
    if parts == [] then [NEWLINE] else Entry(parts[0]) + Following(parts[1..])
  }

  const PREAMBLE: string :=
    "FIRMWARE_VER:1.0\nMACHINE_MODEL:rk3229\nMACHINE_ID:007\n"
    + "MANUFACTURER:RK3229\nMAGIC: 0x5041524B\nATAG: 0x00200800\n"
    + "MACHINE: 3229\nCHECK_MASK: 0x80\nPWR_HLD: 0,0,A,0,1\nCMDLINE:"

  const MTD_KEY: string := "mtdparts=rk29xxnand:"

  /** Everything in front of the partition list. */
  function Preamble(extra: seq<byte>): seq<byte> {
    Ascii(PREAMBLE) + extra + Ascii(MTD_KEY)
  }

  function BuildText(parts: seq<Partition>, extra: seq<byte>): seq<byte> {
    Preamble(extra) + MtdParts(parts)
  }

  function Checksum(text: seq<byte>): (n: nat)
    ensures n < U32
  {
    var c := Crc32(text, Clear(32));
    NatOfBound(c);
    Pow2Of32();
    NatOf(c)
  }

  /** struct rkparm_param around a text, with a given tag and checksum. */
  function Image(tag: nat, text: seq<byte>, crc: nat): (b: seq<byte>)
    requires tag < U32 && |text| < U32 && crc < U32
    ensures |b| == |text| + 12
  {
    Pack32(tag) + Pack32(|text|) + text + Pack32(crc)
  }

  function Blob(text: seq<byte>): (b: seq<byte>)
    requires |text| < U32
    ensures |b| == |text| + 12
  {
    Image(TAG, text, Checksum(text))
  }

  function Build(parts: seq<Partition>, extra: seq<byte>, padTo: nat): Result<seq<byte>, Error> {
    var text := BuildText(parts, extra);
    if |text| >= U32 || |Blob(text)| > padTo then
      Err(TooLong(|text| + 12))
    else
      Ok(Blob(text) + Zeros(padTo - |Blob(text)|))
  }

  function Inspect(raw: seq<byte>): Result<Report, Error> {
    if |raw| < 8 then
      Err(Truncated)
    else
      var tag, length := Unpack32(raw[..4]), Unpack32(raw[4..8]);
      if |raw| < 8 + length + 4 then
        Err(Truncated)
      else
        var text := raw[8..8 + length];
        var crc := Unpack32(raw[8 + length..8 + length + 4]);
        Ok(Report(tag, length, text, crc, tag == TAG && Checksum(text) == crc))
  }

  // --------------------------------------------------------------- round trip

  ghost predicate Accepts(raw: seq<byte>) {
    Inspect(raw).Ok? && Inspect(raw).value.accepted
  }

  /** inspect decodes any image whose length field is right, whatever follows it,
      and compares the tag and the checksum. */
  lemma InspectImage(tag: nat, text: seq<byte>, crc: nat, rest: seq<byte>)
    requires tag < U32 && |text| < U32 && crc < U32
    ensures Inspect(Image(tag, text, crc) + rest)
         == Ok(Report(tag, |text|, text, crc, tag == TAG && Checksum(text) == crc))
  {
    var raw := Image(tag, text, crc) + rest;
    var n := |text|;
    assert raw[..4] == Pack32(tag);
    assert raw[4..8] == Pack32(n);
    assert raw[8..8 + n] == text;
    assert raw[8 + n..8 + n + 4] == Pack32(crc);
    Unpack32Pack32(tag);
    Unpack32Pack32(n);
    Unpack32Pack32(crc);
  }

  lemma CutImage(raw: seq<byte>, n: nat)
    requires n + 12 <= |raw| && n < U32 && raw[4..8] == Pack32(n)
    ensures raw == Image(Unpack32(raw[..4]), raw[8..8 + n], Unpack32(raw[8 + n..n + 12])) + raw[n + 12..]
  {
    Pack32Unpack32(raw[..4]);
    Pack32Unpack32(raw[8 + n..n + 12]);
  }

  /** inspect accepts exactly the images that start with a parameter blob, and the
      text it decodes is that blob's. */
  lemma AcceptsIffBlob(raw: seq<byte>)
    ensures Accepts(raw)
       <==> exists text: seq<byte> :: |text| < U32 && Blob(text) <= raw
    ensures Accepts(raw) ==>
              |Inspect(raw).value.text| < U32 && Blob(Inspect(raw).value.text) <= raw
  {
    if Accepts(raw) {
      AcceptedIsBlob(raw);
    }
    if text: seq<byte> :| |text| < U32 && Blob(text) <= raw {
      BlobIsAccepted(raw, text);
    }
  }

  lemma AcceptedIsBlob(raw: seq<byte>)
    requires Accepts(raw)
    ensures |Inspect(raw).value.text| < U32 && Blob(Inspect(raw).value.text) <= raw
  {
    Pack32Unpack32(raw[4..8]);
    CutImage(raw, Inspect(raw).value.length);
  }

  lemma BlobIsAccepted(raw: seq<byte>, text: seq<byte>)
    requires |text| < U32 && Blob(text) <= raw
    ensures Accepts(raw)
  {
    assert raw == Blob(text) + raw[|text| + 12..];
    InspectImage(TAG, text, Checksum(text), raw[|text| + 12..]);
  }

  /** A block is built exactly when the text fits, is then exactly `padTo` bytes
      long, and inspect accepts it and gives the text back. */
  lemma BuildThenInspect(parts: seq<Partition>, extra: seq<byte>, padTo: nat)
    ensures var text := BuildText(parts, extra);
            var built := Build(parts, extra, padTo);
            && (built.Ok? <==> |text| < U32 && |text| + 12 <= padTo)
            && (built.Ok? ==>
                  && |built.value| == padTo
                  && (forall i :: |text| + 12 <= i < padTo ==> built.value[i] == 0)
                  && Inspect(built.value)
                       == Ok(Report(TAG, |text|, text, Checksum(text), true)))
  {
    var text := BuildText(parts, extra);
    if |text| < U32 && |text| + 12 <= padTo {
      InspectImage(TAG, text, Checksum(text), Zeros(padTo - |Blob(text)|));
    }
  }

  lemma ChecksumDiffers(a: seq<byte>, b: seq<byte>)
    requires Crc32(a, Clear(32)) != Crc32(b, Clear(32))
    ensures Checksum(a) != Checksum(b)
  {
    BitsOfNatOf(Crc32(a, Clear(32)));
    BitsOfNatOf(Crc32(b, Clear(32)));
  }

  /** inspect rejects every image obtained from an accepted one by corrupting its
      text inside 32 consecutive bits. */
  lemma CorruptionRejected(raw: seq<byte>, text: seq<byte>, at: nat)
    requires Accepts(raw)
    requires |text| == |Inspect(raw).value.text| && text != Inspect(raw).value.text
    requires SameOutside(MessageBits(Inspect(raw).value.text), MessageBits(text), at)
    ensures !Accepts(raw[..8] + text + raw[8 + |text|..])
  {
    var was := Inspect(raw).value.text;
    AcceptsIffBlob(raw);
    BurstDetected(was, text, Clear(32), at);
    ChecksumDiffers(was, text);
    OtherChecksumRejected(raw, was, text);
  }

  lemma OtherChecksumRejected(raw: seq<byte>, was: seq<byte>, text: seq<byte>)
    requires |text| == |was| < U32 && Blob(was) <= raw && Checksum(text) != Checksum(was)
    ensures !Accepts(raw[..8] + text + raw[8 + |text|..])
  {
    ReplaceText(raw, was, text);
    InspectImage(TAG, text, Checksum(was), raw[|text| + 12..]);
  }

  lemma ReplaceMiddle(h: seq<byte>, before: seq<byte>, text: seq<byte>, tail: seq<byte>)
    requires |text| == |before|
    ensures var raw := h + before + tail;
            raw[..|h|] + text + raw[|h| + |text|..] == h + text + tail
  {
  }

  lemma ImageParts(tag: nat, text: seq<byte>, crc: nat, rest: seq<byte>)
    requires tag < U32 && |text| < U32 && crc < U32
    ensures Image(tag, text, crc) + rest == (Pack32(tag) + Pack32(|text|)) + text + (Pack32(crc) + rest)
  {
  }

  lemma ReplaceText(raw: seq<byte>, before: seq<byte>, text: seq<byte>)
    requires |text| == |before| < U32 && Blob(before) <= raw
    ensures raw[..8] + text + raw[8 + |text|..]
         == Image(TAG, text, Checksum(before)) + raw[|text| + 12..]
  {
    var h, crc, rest := Pack32(TAG) + Pack32(|text|), Pack32(Checksum(before)), raw[|text| + 12..];
    assert raw == Blob(before) + rest;
    ImageParts(TAG, before, Checksum(before), rest);
    ReplaceMiddle(h, before, text, crc + rest);
    ImageParts(TAG, text, Checksum(before), rest);
  }

  // ------------------------------------------------------ unambiguous format

  function HexDigitValue(c: byte): int {
    if c < 'a' as int then c - '0' as int else c - 'a' as int + 10
  }

  function HexValue(s: seq<byte>): int {
    if s == [] then 0 else 16 * HexValue(s[..|s| - 1]) + HexDigitValue(s[|s| - 1])
  }

  lemma {:induction false} HexBack(n: nat, pad: nat)
    ensures HexValue(Padding(pad) + Hex(n)) == n
    decreases n, pad
  {
    var z := Padding(pad);
    var s := z + Hex(n);
    if n >= 16 {
      assert s[..|s| - 1] == z + Hex(n / 16);
      HexBack(n / 16, pad);
    } else {
      assert s[..|s| - 1] == z;
      PaddingIsZero(pad);
    }
  }

  lemma {:induction false} PaddingIsZero(pad: nat)
    ensures HexValue(Padding(pad)) == 0
  {
    var z := Padding(pad);
    if pad > 0 {
      assert z[..pad - 1] == Padding(pad - 1);
      PaddingIsZero(pad - 1);
    }
  }

  lemma Hex8Injective(m: nat, n: nat)
    requires Hex8(m) == Hex8(n)
    ensures m == n
  {
    var g, h := Hex(m), Hex(n);
    var p, q := if |g| < 8 then 8 - |g| else 0, if |h| < 8 then 8 - |h| else 0;
    HexBack(m, p);
    HexBack(n, q);
    assert Hex8(m)[2..] == Padding(p) + g;
    assert Hex8(n)[2..] == Padding(q) + h;
  }

  lemma {:induction false} HexIsHex(n: nat, c: byte)
    requires c in Hex(n)
    ensures '0' as int <= c <= '9' as int || 'a' as int <= c <= 'f' as int
  {
    if n >= 16 && c in Hex(n / 16) {
      HexIsHex(n / 16, c);
    }
  }

  lemma Hex8HasNo(n: nat, c: byte)
    requires c in {AT, OPEN, CLOSE, DASH}
    ensures c !in Hex8(n)
  {
    if c in Hex(n) {
      HexIsHex(n, c);
    }
  }

  /** A delimiter that occurs in neither field ends both at the same place. */
  lemma SameField(a: seq<byte>, r: seq<byte>, b: seq<byte>, s: seq<byte>, d: byte)
    requires d !in a && d !in b
    requires a + [d] + r == b + [d] + s
    ensures a == b && r == s
  {
    var x, y := a + [d] + r, b + [d] + s;
    assert x[|a|] == d && y[|b|] == d;
    assert forall i :: 0 <= i < |a| ==> x[i] == a[i] != d;
    assert forall i :: 0 <= i < |b| ==> y[i] == b[i] != d;
    assert x[..|a|] == a && y[..|b|] == b;
    assert x[|a| + 1..] == r && y[|b| + 1..] == s;
  }

  lemma SizeFieldInjective(m: Option<nat>, n: Option<nat>)
    requires SizeField(m) == SizeField(n)
    ensures m == n
  {
    assert SizeField(m)[0] == (if m.Some? then '0' as int else DASH);
    assert SizeField(n)[0] == (if n.Some? then '0' as int else DASH);
    if m.Some? {
      Hex8Injective(m.value, n.value);
    }
  }

  lemma SizeFieldHasNo(size: Option<nat>, c: byte)
    requires c in {AT, OPEN, CLOSE}
    ensures c !in SizeField(size)
  {
    if size.Some? {
      Hex8HasNo(size.value, c);
    }
  }

  lemma HeadHasNoClose(size: Option<nat>, start: nat)
    ensures CLOSE !in Head(size, start)
  {
    SizeFieldHasNo(size, CLOSE);
    Hex8HasNo(start, CLOSE);
  }

  lemma SameFields(a: seq<byte>, b: seq<byte>, r: seq<byte>, c: seq<byte>, d: seq<byte>, s: seq<byte>)
    requires AT !in a && AT !in c && OPEN !in b && OPEN !in d
    requires a + [AT] + (b + [OPEN]) + r == c + [AT] + (d + [OPEN]) + s
    ensures a == c && b == d && r == s
  {
    assert a + [AT] + (b + [OPEN]) + r == a + [AT] + (b + [OPEN] + r);
    assert c + [AT] + (d + [OPEN]) + s == c + [AT] + (d + [OPEN] + s);
    SameField(a, b + [OPEN] + r, c, d + [OPEN] + s, AT);
    SameField(b, r, d, s, OPEN);
  }

  /** What comes in front of a name determines size and start, whatever follows. */
  lemma HeadInjective(m: Option<nat>, i: nat, r: seq<byte>, n: Option<nat>, k: nat, s: seq<byte>)
    requires Head(m, i) + r == Head(n, k) + s
    ensures m == n && i == k && r == s
  {
    SizeFieldHasNo(m, AT);
    SizeFieldHasNo(n, AT);
    Hex8HasNo(i, OPEN);
    Hex8HasNo(k, OPEN);
    SameFields(SizeField(m), Hex8(i), r, SizeField(n), Hex8(k), s);
    SizeFieldInjective(m, n);
    Hex8Injective(i, k);
  }

  /** The name has the start of a further entry inside: a ')', a comma and everything
      up to the next name. */
  ghost predicate Embeds(name: seq<byte>) {
    exists a, size, start, b :: EmbedsAt(name, a, size, start, b)
  }

  ghost predicate EmbedsAt(name: seq<byte>, a: seq<byte>, size: Option<nat>, start: nat, b: seq<byte>) {
    name == a + [CLOSE] + ([COMMA] + Head(size, start) + b)
  }

  ghost predicate Plain(parts: seq<Partition>) {
    forall i :: 0 <= i < |parts| ==> !Embeds(parts[i].name)
  }

  /** A text without the delimiter cannot reach past it. */
  lemma BeforeDelimiter(h: seq<byte>, r: seq<byte>, t: seq<byte>, d: byte, s: seq<byte>)
    requires h + r == t + [d] + s && d !in h
    ensures |h| <= |t| && t == h + t[|h|..]
  {
    var x := h + r;
    assert x[|t|] == (t + [d] + s)[|t|] == d;
    assert forall i :: 0 <= i < |h| ==> x[i] == h[i];
    assert x[..|t|] == t;
  }

  lemma LongerName(n: seq<byte>, r: seq<byte>, m: seq<byte>, s: seq<byte>) returns (t: seq<byte>)
    requires n + [CLOSE] + r == m + [CLOSE] + s && |n| < |m|
    ensures m == n + [CLOSE] + t && r == t + [CLOSE] + s
  {
    t := m[|n| + 1..];
    var x, y := n + [CLOSE] + r, m + [CLOSE] + s;
    assert m == y[..|m|] == x[..|m|];
    assert n + [CLOSE] == x[..|n| + 1];
    assert r == x[|n| + 1..] == y[|n| + 1..];
  }

  /** Of two readings the one with the longer name has an entry inside it. */
  lemma LongerEmbeds(n: seq<byte>, ps: seq<Partition>, m: seq<byte>, s: seq<byte>)
    requires n + [CLOSE] + Following(ps) == m + [CLOSE] + s && |n| < |m| && s != []
    ensures ps != [] && Embeds(m)
  {
    var t := LongerName(n, Following(ps), m, s);
    if ps != [] {
      var p := ps[0];
      var h, r := [COMMA] + Head(p.size, p.start), p.name + [CLOSE] + Following(ps[1..]);
      assert Following(ps) == h + r;
      HeadHasNoClose(p.size, p.start);
      BeforeDelimiter(h, r, t, CLOSE, s);
      assert EmbedsAt(m, n, p.size, p.start, t[|h|..]);
    }
  }

  lemma EntryTail(p: Partition, r: seq<byte>, q: Partition, s: seq<byte>)
    requires Entry(p) + r == Entry(q) + s
    ensures p.size == q.size && p.start == q.start && p.name + [CLOSE] + r == q.name + [CLOSE] + s
  {
    var r1, s1 := p.name + [CLOSE] + r, q.name + [CLOSE] + s;
    assert Entry(p) + r == Head(p.size, p.start) + r1;
    assert Entry(q) + s == Head(q.size, q.start) + s1;
    HeadInjective(p.size, p.start, r1, q.size, q.start, s1);
  }

  lemma FollowingNotEmpty(ps: seq<Partition>)
    ensures Following(ps) != [] && Following(ps)[0] == if ps == [] then NEWLINE else COMMA
  {
  }

  lemma SameNames(n: seq<byte>, r: seq<byte>, m: seq<byte>, s: seq<byte>)
    requires n + [CLOSE] + r == m + [CLOSE] + s && |n| == |m|
    ensures n == m && r == s
  {
    var x, y := n + [CLOSE] + r, m + [CLOSE] + s;
    assert x[..|n|] == n && y[..|m|] == m;
    assert x[|n| + 1..] == r && y[|m| + 1..] == s;
  }

  /** Two readings of the same entries differ only if one has a name with an entry
      inside it. */
  lemma EntryInjective(p: Partition, ps: seq<Partition>, q: Partition, qs: seq<Partition>)
    requires !Embeds(p.name) && !Embeds(q.name)
    requires Entry(p) + Following(ps) == Entry(q) + Following(qs)
    ensures p == q && Following(ps) == Following(qs)
  {
    EntryTail(p, Following(ps), q, Following(qs));
    FollowingNotEmpty(ps);
    FollowingNotEmpty(qs);
    if |p.name| < |q.name| {
      LongerEmbeds(p.name, ps, q.name, Following(qs));
    } else if |q.name| < |p.name| {
      LongerEmbeds(q.name, qs, p.name, Following(ps));
    } else {
      SameNames(p.name, Following(ps), q.name, Following(qs));
    }
  }

  lemma {:induction false} FollowingInjective(ps: seq<Partition>, qs: seq<Partition>)
    requires Plain(ps) && Plain(qs)
    requires Following(ps) == Following(qs)
    ensures ps == qs
    decreases ps
  {
    FollowingNotEmpty(ps);
    FollowingNotEmpty(qs);
    if ps != [] {
      assert Following(ps)[1..] == Entry(ps[0]) + Following(ps[1..]);
      assert Following(qs)[1..] == Entry(qs[0]) + Following(qs[1..]);
      EntryInjective(ps[0], ps[1..], qs[0], qs[1..]);
      FollowingInjective(ps[1..], qs[1..]);
      assert ps == [ps[0]] + ps[1..] && qs == [qs[0]] + qs[1..];
    }
  }

  lemma EntryStart(p: Partition)
    ensures Entry(p)[0] != NEWLINE
  {
    assert Entry(p)[0] == SizeField(p.size)[0];
  }

  /** An empty list has its own text. */
  lemma MtdPartsEmpty(ps: seq<Partition>)
    ensures MtdParts(ps) == MtdParts([]) <==> ps == []
  {
    if ps != [] {
      EntryStart(ps[0]);
      assert MtdParts(ps)[0] == Entry(ps[0])[0];
    }
  }

  lemma MtdPartsInjective(ps: seq<Partition>, qs: seq<Partition>)
    requires Plain(ps) && Plain(qs)
    requires MtdParts(ps) == MtdParts(qs)
    ensures ps == qs
  {
    MtdPartsEmpty(ps);
    MtdPartsEmpty(qs);
    if ps != [] {
      EntryInjective(ps[0], ps[1..], qs[0], qs[1..]);
      FollowingInjective(ps[1..], qs[1..]);
      assert ps == [ps[0]] + ps[1..] && qs == [qs[0]] + qs[1..];
    }
  }

  lemma SamePrefix(head: seq<byte>, x: seq<byte>, y: seq<byte>)
    requires head + x == head + y
    ensures x == y
  {
    assert (head + x)[|head|..] == x;
    assert (head + y)[|head|..] == y;
  }

  /** Over partition lists whose names have no entry inside, the text determines the
      list: names, starts and sizes of any width, and the "rest of device" form. */
  lemma BuildTextInjective(ps: seq<Partition>, qs: seq<Partition>, extra: seq<byte>)
    requires Plain(ps) && Plain(qs)
    requires BuildText(ps, extra) == BuildText(qs, extra)
    ensures ps == qs
  {
    SamePrefix(Preamble(extra), MtdParts(ps), MtdParts(qs));
    MtdPartsInjective(ps, qs);
  }

  // -------------------------------------------------------- what the text says

  const ZERO_X: seq<byte> := ['0' as int, 'x' as int]

  /** A number is written as 0x and at least eight lower case digits with its value. */
  lemma Hex8Reads(n: nat) returns (h: seq<byte>)
    ensures Hex8(n) == ZERO_X + h && |h| >= 8 && HexValue(h) == n
    ensures forall c :: c in h ==> '0' as int <= c <= '9' as int || 'a' as int <= c <= 'f' as int
  {
    var d := Hex(n);
    var pad := if |d| < 8 then 8 - |d| else 0;
    h := Padding(pad) + d;
    HexBack(n, pad);
    forall c | c in h
      ensures '0' as int <= c <= '9' as int || 'a' as int <= c <= 'f' as int
    {
      if c in d {
        HexIsHex(n, c);
      }
    }
  }

  /** An entry is the size, '@', the start and the name in parentheses, in this order:
      the digits in front of '@' have the value of the size, and those behind it the
      value of the start. Without a size there is a dash. */
  lemma EntryReads(p: Partition) returns (h: seq<byte>, k: seq<byte>)
    ensures HexValue(k) == p.start && |k| >= 8 && AT !in k && OPEN !in k
    ensures p.size.Some? ==> HexValue(h) == p.size.value && |h| >= 8 && AT !in h && OPEN !in h
    ensures Entry(p)
         == (if p.size.Some? then ZERO_X + h else [DASH]) + [AT] + (ZERO_X + k + [OPEN]) + (p.name + [CLOSE])
  {
    k := Hex8Reads(p.start);
    h := [];
    if p.size.Some? {
      h := Hex8Reads(p.size.value);
    }
  }

  lemma HexCons(n: nat, d: nat)
    requires n > 0 && d < 16
    ensures Hex(16 * n + d) == Hex(n) + [HexDigit(d)]
  {
  }

  lemma HexOfThousands(n: nat)
    requires 0 < n < 16
    ensures Hex(0x1000 * n) == [HexDigit(n), '0' as int, '0' as int, '0' as int]
  {
    HexCons(n, 0);
    HexCons(16 * n, 0);
    HexCons(256 * n, 0);
  }

  lemma Hex8OfThousands(n: nat)
    requires 0 < n < 16
    ensures Hex8(0x1000 * n) == ZERO_X + Padding(4) + [HexDigit(n), '0' as int, '0' as int, '0' as int]
  {
    HexOfThousands(n);
  }

  lemma Eight(d: byte)
    ensures ZERO_X + Padding(4) + [d, '0' as int, '0' as int, '0' as int] == Ascii("0x0000") + [d] + Ascii("000")
  {
  }

  lemma EntryOf(name: seq<byte>, start: nat, size: nat, k: seq<byte>, h: seq<byte>)
    requires Hex8(start) == k && Hex8(size) == h
    ensures Entry(Partition(name, start, Some(size))) == h + [AT] + (k + [OPEN]) + (name + [CLOSE])
  {
  }

  lemma Signs()
    ensures Ascii("@") == [AT] && Ascii("(") == [OPEN] && Ascii(")") == [CLOSE]
  {
  }

  /** The texts of entries like the default ones. */
  lemma EntryText(name: seq<byte>, m: nat, n: nat)
    requires 0 < m < 16 && 0 < n < 16
    ensures Entry(Partition(name, 0x1000 * m, Some(0x1000 * n)))
         == (Ascii("0x0000") + [HexDigit(n)] + Ascii("000")) + Ascii("@")
            + ((Ascii("0x0000") + [HexDigit(m)] + Ascii("000")) + Ascii("(")) + (name + Ascii(")"))
  {
    Hex8OfThousands(m);
    Hex8OfThousands(n);
    Eight(HexDigit(m));
    Eight(HexDigit(n));
    EntryOf(name, 0x1000 * m, 0x1000 * n,
            Ascii("0x0000") + [HexDigit(m)] + Ascii("000"), Ascii("0x0000") + [HexDigit(n)] + Ascii("000"));
    Signs();
  }

  function Thousands(d: char): string {
    "0x0000" + [d] + "000"
  }

  lemma ThousandsAscii(d: char)
    requires d < 128 as char
    ensures Ascii("0x0000") + [d as int] + Ascii("000") == Ascii(Thousands(d))
  {
  }

  lemma AsciiJoins(a: string, b: string, c: string)
    ensures Ascii(a) + Ascii("@") + (Ascii(b) + Ascii("(")) + (Ascii(c) + Ascii(")"))
         == Ascii(a + "@" + b + "(" + c + ")")
  {
  }

  lemma NamedEntry(name: string, m: nat, n: nat, x: char, y: char)
    requires 0 < m < 16 && 0 < n < 16 && x < 128 as char && y < 128 as char
    requires HexDigit(m) == x as int && HexDigit(n) == y as int
    ensures Entry(Partition(Ascii(name), 0x1000 * m, Some(0x1000 * n)))
         == Ascii(Thousands(y) + "@" + Thousands(x) + "(" + name + ")")
  {
    EntryText(Ascii(name), m, n);
    ThousandsAscii(x);
    ThousandsAscii(y);
    AsciiJoins(Thousands(y), Thousands(x), name);
  }

  lemma Spelled()
    ensures Thousands('2') + "@" + Thousands('4') + "(" + "trust" + ")" == "0x00002000@0x00004000(trust)"
  {
  }

  /** The default partition trust, as a text. */
  lemma TrustText()
    ensures Entry(Partition(Ascii("trust"), 0x4000, Some(0x2000))) == Ascii("0x00002000@0x00004000(trust)")
  {
    NamedEntry("trust", 4, 2, '4', '2');
    Spelled();
  }

  /** The entries follow each other in the order of the list, with commas between them
      and a newline behind the last. */
  lemma EntriesInOrder(p: Partition, ps: seq<Partition>)
    ensures MtdParts([p] + ps) == Entry(p) + if ps == [] then [NEWLINE] else [COMMA] + MtdParts(ps)
  {
    assert ([p] + ps)[1..] == ps;
  }

  lemma SameMiddle(a: seq<byte>, x: seq<byte>, y: seq<byte>, z: seq<byte>)
    requires a + x + z == a + y + z
    ensures x == y
  {
    assert (a + x + z)[|a|..|a| + |x|] == x;
    assert (a + y + z)[|a|..|a| + |y|] == y;
  }

  /** The extra command line is in the text, behind the fixed lines; then comes
      mtdparts=rk29xxnand: and the list. */
  lemma TextParts(parts: seq<Partition>, extra: seq<byte>)
    ensures BuildText(parts, extra) == Ascii(PREAMBLE) + extra + (Ascii("mtdparts=rk29xxnand:") + MtdParts(parts))
  {
    Regrouped(Ascii(PREAMBLE), extra, Ascii(MTD_KEY), MtdParts(parts));
  }

  lemma Regrouped(a: seq<byte>, b: seq<byte>, c: seq<byte>, d: seq<byte>)
    ensures (a + b + c) + d == a + b + (c + d)
  {
  }

  lemma ExtraTold(parts: seq<Partition>, x: seq<byte>, y: seq<byte>)
    requires BuildText(parts, x) == BuildText(parts, y)
    ensures x == y
  {
    TextParts(parts, x);
    TextParts(parts, y);
    SameMiddle(Ascii(PREAMBLE), x, y, Ascii("mtdparts=rk29xxnand:") + MtdParts(parts));
  }

  /** The block starts with the letters PARM and the length, least significant byte
      first, and ends with the checksum. */
  lemma BlobLayout(text: seq<byte>)
    requires |text| < U32
    ensures Blob(text)[..4] == ['P' as int, 'A' as int, 'R' as int, 'M' as int]
    ensures Unpack32(Blob(text)[4..8]) == |text| && Blob(text)[8..8 + |text|] == text
    ensures Unpack32(Blob(text)[8 + |text|..]) == Checksum(text)
  {
    Unpack32Pack32(|text|);
    Unpack32Pack32(Checksum(text));
    assert Blob(text)[..4] == Pack32(TAG);
    assert Blob(text)[4..8] == Pack32(|text|);
    assert Blob(text)[8 + |text|..] == Pack32(Checksum(text));
    assert Pack16(TAG % U16) == [0x50, 0x41] && Pack16(TAG / U16) == [0x52, 0x4D];
  }

  // -------------------------------------------------- and when it is ambiguous

  lemma NestedEntry(h: seq<byte>, a: seq<byte>, k: seq<byte>, b: seq<byte>)
    ensures h + (a + [CLOSE] + ([COMMA] + k + b) + [CLOSE])
         == (h + (a + [CLOSE])) + ([COMMA] + (k + (b + [CLOSE])))
  {
  }

  lemma FollowingCons(p: Partition, ps: seq<Partition>)
    ensures Following([p] + ps) == [COMMA] + (Entry(p) + Following(ps))
  {
    assert ([p] + ps)[1..] == ps;
  }

  lemma FirstApart(ps: seq<Partition>, qs: seq<Partition>)
    requires ps != []
    ensures ps + qs == [ps[0]] + (ps[1..] + qs)
  {
  }

  lemma SameBehind(p: Partition, xs: seq<Partition>, ys: seq<Partition>)
    requires Following(xs) == Following(ys)
    ensures Following([p] + xs) == Following([p] + ys)
  {
    FollowingCons(p, xs);
    FollowingCons(p, ys);
  }

  lemma {:induction false} FollowingCongruent(pre: seq<Partition>, xs: seq<Partition>, ys: seq<Partition>)
    requires Following(xs) == Following(ys)
    ensures Following(pre + xs) == Following(pre + ys)
  {
    if pre == [] {
      assert pre + xs == xs && pre + ys == ys;
    } else {
      FollowingCongruent(pre[1..], xs, ys);
      FirstApart(pre, xs);
      FirstApart(pre, ys);
      SameBehind(pre[0], pre[1..] + xs, pre[1..] + ys);
    }
  }

  lemma SameFollowing(ps: seq<Partition>, qs: seq<Partition>)
    requires ps != [] && qs != [] && Following(ps) == Following(qs)
    ensures MtdParts(ps) == MtdParts(qs)
  {
    assert Following(ps)[1..] == MtdParts(ps);
    assert Following(qs)[1..] == MtdParts(qs);
  }

  lemma Regroup(c: seq<byte>, e: seq<byte>, f: seq<byte>, r: seq<byte>)
    ensures c + ((e + (c + f)) + r) == c + (e + (c + (f + r)))
  {
  }

  lemma FollowingTwo(p: Partition, first: Partition, second: Partition, after: seq<Partition>)
    requires Entry(p) == Entry(first) + ([COMMA] + Entry(second))
    ensures Following([p] + after) == Following([first, second] + after)
  {
    FollowingCons(p, after);
    FollowingCons(first, [second] + after);
    FollowingCons(second, after);
    assert [first, second] + after == [first] + ([second] + after);
    Regroup([COMMA], Entry(first), Entry(second), Following(after));
  }

  /** Every name with an entry inside reads as two partitions, wherever it stands. */
  lemma EmbeddedReadsAsTwo(before: seq<Partition>, p: Partition, after: seq<Partition>, extra: seq<byte>,
                           a: seq<byte>, size: Option<nat>, start: nat, b: seq<byte>)
    requires EmbedsAt(p.name, a, size, start, b)
    ensures var two := [Partition(a, p.start, p.size), Partition(b, start, size)];
            BuildText(before + ([p] + after), extra) == BuildText(before + (two + after), extra)
  {
    var first, second := Partition(a, p.start, p.size), Partition(b, start, size);
    NestedEntry(Head(p.size, p.start), a, Head(size, start), b);
    FollowingTwo(p, first, second, after);
    FollowingCongruent(before, [p] + after, [first, second] + after);
    SameFollowing(before + ([p] + after), before + ([first, second] + after));
  }

  /** The text can be read in one way only. */
  ghost predicate Unique(ps: seq<Partition>, extra: seq<byte>) {
    forall qs: seq<Partition> :: BuildText(qs, extra) == BuildText(ps, extra) ==> qs == ps
  }

  /** Two neighbours also read as one partition with a longer name. */
  lemma TwoReadAsOne(ps: seq<Partition>, extra: seq<byte>)
    requires |ps| >= 2
    ensures !Unique(ps, extra)
  {
    var p, q := ps[0], ps[1];
    var name := p.name + [CLOSE] + ([COMMA] + Head(q.size, q.start) + q.name);
    var one := Partition(name, p.start, p.size);
    EmbeddedReadsAsTwo([], one, ps[2..], extra, p.name, q.size, q.start, q.name);
    assert [] + ([p, q] + ps[2..]) == ps;
    assert |[] + ([one] + ps[2..])| < |ps|;
  }

  lemma EmbeddedNotUnique(ps: seq<Partition>, extra: seq<byte>)
    requires |ps| == 1 && Embeds(ps[0].name)
    ensures !Unique(ps, extra)
  {
    var a, size, start, b :| EmbedsAt(ps[0].name, a, size, start, b);
    var two := [Partition(a, ps[0].start, ps[0].size), Partition(b, start, size)];
    EmbeddedReadsAsTwo([], ps[0], [], extra, a, size, start, b);
    assert [] + ([ps[0]] + []) == ps && |[] + (two + [])| == 2;
  }

  lemma OneEntryUnique(p: Partition, qs: seq<Partition>)
    requires !Embeds(p.name) && MtdParts(qs) == MtdParts([p])
    ensures qs == [p]
  {
    assert [p][1..] == [];
    MtdPartsEmpty([p]);
    MtdPartsEmpty(qs);
    var q, rest := qs[0], qs[1..];
    EntryTail(p, Following([]), q, Following(rest));
    FollowingNotEmpty(rest);
    FollowingNotEmpty([]);
    if |p.name| < |q.name| {
      LongerEmbeds(p.name, [], q.name, Following(rest));
    } else if |q.name| < |p.name| {
      LongerEmbeds(q.name, rest, p.name, Following([]));
    } else {
      SameNames(p.name, Following([]), q.name, Following(rest));
      assert qs == [q] + rest;
    }
  }

  /** Among all partition lists, with any names, a text has one reading exactly when
      the list is empty or a single partition whose name has no entry inside. */
  lemma UniqueIff(ps: seq<Partition>, extra: seq<byte>)
    ensures Unique(ps, extra) <==> ps == [] || (|ps| == 1 && !Embeds(ps[0].name))
  {
    if |ps| >= 2 {
      TwoReadAsOne(ps, extra);
    } else if |ps| == 1 && Embeds(ps[0].name) {
      EmbeddedNotUnique(ps, extra);
    } else {
      forall qs: seq<Partition> | BuildText(qs, extra) == BuildText(ps, extra)
        ensures qs == ps
      {
        SamePrefix(Preamble(extra), MtdParts(qs), MtdParts(ps));
        if ps == [] {
          MtdPartsEmpty(qs);
        } else {
          assert ps == [ps[0]];
          OneEntryUnique(ps[0], qs);
        }
      }
    }
  }
}
