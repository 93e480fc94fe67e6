/** Extended console messages over UDP: send_ext_msg_udp in
    drivers/nand-rk322x/netcon-port/netconsole.c. */
module Netconsole {
  import opened Wrappers
  import opened Bytes
  import opened Buffers

  const SEMICOLON: byte := ';' as int
  const COMMA: byte := ',' as int
  const SLASH: byte := '/' as int
  const NUL: byte := 0

  /** init_utsname()->release. */
  type Release = r: seq<byte> | |r| <= 64 && NUL !in r && SEMICOLON !in r witness []

  // ------------------------------------------------------------ definitions

  /** The format %d of a number that is not negative. */
  function Decimal(n: nat): seq<byte> {
    if n < 10 then ['0' as int + n] else Decimal(n / 10) + ['0' as int + n % 10]
  }

  const KEY: seq<byte> :=
    ['n' as int, 'c' as int, 'f' as int, 'r' as int, 'a' as int, 'g' as int, '=' as int]

  function Offsets(off: nat, total: nat): seq<byte> {
    Decimal(off) + [SLASH] + Decimal(total)
  }

  /** The extra header field of the fragment at `off`. */
  function Field(off: nat, total: nat): seq<byte> {
    [COMMA] + (KEY + Offsets(off, total)) + [SEMICOLON]
  }

  /** How much of s scnprintf stores in `size` bytes, its NUL not counted. */
  function Stored(s: seq<byte>, size: nat): (n: nat)
    ensures n <= |s| && (size > 0 ==> n < size)
  {
    if |s| < size then |s| else if size == 0 then 0 else size - 1
  }

  /** The base header and as much of a field as scnprintf stores behind it. */
  function Extended(base: seq<byte>, field: seq<byte>): (h: seq<byte>)
    requires |base| <= 1000
    ensures |h| <= 1000
  {
    base + field[..Stored(field, 1000 - |base|)]
  }

  /** The extra field, or the whole header, of the datagram at each offset. */
  type Headers = nat -> seq<byte>

  function FieldsOf(total: nat): Headers {
    off => Field(off, total)
  }

  function HeadersOf(base: seq<byte>, fields: Headers): Headers
    requires |base| <= 1000
  {
    off => Extended(base, fields(off))
  }

  /** How much of what is left goes behind a header. */
  function Chunk(header: seq<byte>, left: nat): (n: nat)
    ensures n <= left && (n > 0 ==> n + |header| <= 1000)
  {
    if |header| + left < 1000 then left else if |header| < 1000 then 1000 - |header| else 0
  }

  /** The datagrams for the part of the body from `off` on. It stops when a header
      leaves no room. */
  function Fragments(h: Headers, body: seq<byte>, off: nat): seq<seq<byte>>
    requires off <= |body|
    decreases |body| - off
  {
    var n := Chunk(h(off), |body| - off);
    if n == 0 then []
    else [h(off) + body[off..off + n]] + Fragments(h, body, off + n)
  }

  /** Position of the first c, or the length. */
  function Find(s: seq<byte>, c: byte): (i: nat)
    ensures i <= |s| && c !in s[..i] && (i < |s| ==> s[i] == c)
  {
    if s == [] then 0 else if s[0] == c then 0
    else
      var i := 1 + Find(s[1..], c);
      assert s[..i] == [s[0]] + s[1..][..i - 1];
      i
  }

  function Prefix(release: Option<Release>): seq<byte> {
    match release
    case Some(r) => r + [COMMA]
    case None => []
  }

  function BaseHeader(release: Option<Release>, msg: seq<byte>): seq<byte> {
    Prefix(release) + msg[..Find(msg, SEMICOLON)]
  }

  /** The datagram of a message that is not split. With a release it goes through
      scnprintf, whose NUL takes the last of 1000 bytes. */
  function Single(release: Option<Release>, msg: seq<byte>): seq<byte> {
    var all := Prefix(release) + msg;
    if release.Some? && |all| >= 1000 then all[..999] + [NUL] else all
  }

  /** What was handed to netpoll_send_udp and whether a warning was raised. Overrun
      means that the unchecked copy of a header to the static buffer runs past its
      end; the C code has no defined behaviour then. */
  datatype Outcome = Sent(sent: seq<seq<byte>>, warned: bool) | Overrun

  function Send(release: Option<Release>, msg: seq<byte>): Outcome {
    if |msg| + |Prefix(release)| <= 1000 then Sent([Single(release, msg)], false)
    else if Find(msg, SEMICOLON) == |msg| then Sent([], true)
    else
      var base, body := BaseHeader(release, msg), msg[Find(msg, SEMICOLON) + 1..];
      if |base| > 1000 then Overrun
      else Sent(Fragments(HeadersOf(base, FieldsOf(|body|)), body, 0), |base| == 1000 && body != [])
  }

  // ----------------------------------------------------------- implementation

  /** scnprintf of the text s into `size` bytes of the buffer. */
  method Scnprintf(buf: array<byte>, at: nat, size: nat, s: seq<byte>) returns (n: nat)
    requires at + size <= buf.Length
    modifies buf
    ensures n == Stored(s, size) && at + n <= buf.Length
    ensures buf[..at + n] == old(buf[..at]) + s[..n]
    ensures size > 0 ==> buf[at + n] == NUL
  {
    n := Stored(s, size);
    CopyBehind(buf, at, s[..n]);
    if size > 0 {
      buf[at + n] := NUL;
    }
  }

  method MakeSingle(buf: array<byte>, release: Release, msg: seq<byte>) returns (datagram: seq<byte>)
    requires buf.Length == 1000 && |release| + 1 + |msg| <= 1000
    modifies buf
    ensures datagram == Single(Some(release), msg)
  {
    var all := release + [COMMA] + msg;
    var n := Scnprintf(buf, 0, 1000, all);
    datagram := buf[..|all|];
    assert buf[..n] == all[..n];
    if n < |all| {
      assert datagram == buf[..999] + [buf[999]];
    }
  }

  /** The release and the message's own header at the start of the buffer. */
  method LayHeader(buf: array<byte>, release: Option<Release>, header: seq<byte>)
    requires buf.Length == 1000 && |Prefix(release)| + |header| <= 1000
    modifies buf
    ensures buf[..|Prefix(release)| + |header|] == Prefix(release) + header
  {
    var n := LayRelease(buf, release);
    CopyBehind(buf, n, header);
  }

  method LayRelease(buf: array<byte>, release: Option<Release>) returns (n: nat)
    requires buf.Length == 1000
    modifies buf
    ensures n == |Prefix(release)| <= 1000 && buf[..n] == Prefix(release)
  {
    n := 0;
    if release.Some? {
      var text := release.value + [COMMA];
      n := Scnprintf(buf, 0, 1000, text);
      assert text[..n] == text;
    }
  }

  /** send_ext_msg_udp, with the datagrams it hands to netpoll_send_udp. */
  method SendExtMsgUdp(buf: array<byte>, release: Option<Release>, msg: seq<byte>) returns (r: Outcome)
    requires buf.Length == 1000 && NUL !in msg
    modifies buf
    ensures r == Send(release, msg)
  {
    var releaseLen := if release.Some? then |release.value| + 1 else 0;
    assert releaseLen == |Prefix(release)|;
    if |msg| + releaseLen <= 1000 {
      if release.Some? {
        var datagram := MakeSingle(buf, release.value, msg);
        return Sent([datagram], false);
      }
      assert Prefix(None) + msg == msg;
      return Sent([msg], false);
    }
    var headerLen := Find(msg, SEMICOLON);
    if headerLen == |msg| {
      return Sent([], true);
    }
    if headerLen + releaseLen > 1000 {
      return Overrun;
    }
    LayHeader(buf, release, msg[..headerLen]);
    var body := msg[headerLen + 1..];
    assert buf[..headerLen + releaseLen] == BaseHeader(release, msg);
    r := SendFragments(buf, headerLen + releaseLen, FieldsOf(|body|), body);
  }

  /** One round of the loop: the field and the chunk behind the base header, or
      nothing when there is no room. */
  method MakeFragment(buf: array<byte>, headerLen: nat, field: seq<byte>, body: seq<byte>, offset: nat)
    returns (chunk: nat, datagram: seq<byte>)
    requires buf.Length == 1000 && headerLen <= 1000 && offset < |body|
    modifies buf
    ensures buf[..headerLen] == old(buf[..headerLen])
    ensures chunk == Chunk(Extended(buf[..headerLen], field), |body| - offset)
    ensures chunk > 0 ==> datagram == Extended(buf[..headerLen], field) + body[offset..offset + chunk]
  {
    ghost var base := buf[..headerLen];
    var n := Scnprintf(buf, headerLen, 1000 - headerLen, field);
    var thisHeader := headerLen + n;
    chunk := if |body| - offset < 1000 - thisHeader then |body| - offset else 1000 - thisHeader;
    assert buf[..thisHeader] == Extended(base, field);
    assert buf[..headerLen] == buf[..thisHeader][..headerLen] == base;
    if chunk == 0 {
      return chunk, [];
    }
    CopyBehind(buf, thisHeader, body[offset..offset + chunk]);
    datagram := buf[..thisHeader + chunk];
    assert buf[..headerLen] == datagram[..headerLen] == base;
  }

  /** The same with the datagram sent; no chunk means that the loop warns and stops. */
  method SendOne(buf: array<byte>, headerLen: nat, fields: Headers, body: seq<byte>, offset: nat,
                 sent: seq<seq<byte>>, ghost h: Headers)
    returns (chunk: nat, more: seq<seq<byte>>)
    requires buf.Length == 1000 && headerLen <= 1000 && offset < |body|
    requires h == HeadersOf(buf[..headerLen], fields)
    modifies buf
    ensures buf[..headerLen] == old(buf[..headerLen])
    ensures chunk <= |body| - offset && (chunk == 0 <==> headerLen == 1000)
    ensures more + Fragments(h, body, offset + chunk) == sent + Fragments(h, body, offset)
    ensures chunk == 0 ==> more == sent && Fragments(h, body, offset) == []
  {
    var datagram;
    chunk, datagram := MakeFragment(buf, headerLen, fields(offset), body, offset);
    RoomIff(buf[..headerLen], fields(offset), |body| - offset);
    if chunk == 0 {
      return chunk, sent;
    }
    FragmentsStep(sent, h, body, offset);
    more := sent + [datagram];
  }

  /** The loop that sends the body behind the header in the buffer. */
  method SendFragments(buf: array<byte>, headerLen: nat, fields: Headers, body: seq<byte>)
    returns (r: Outcome)
    requires buf.Length == 1000 && headerLen <= 1000
    modifies buf
    ensures r == Sent(Fragments(HeadersOf(old(buf[..headerLen]), fields), body, 0),
                         headerLen == 1000 && body != [])
  {
    ghost var base := buf[..headerLen];
    ghost var h := HeadersOf(base, fields);
    var sent: seq<seq<byte>> := [];
    var offset := 0;
    while offset < |body|
      invariant 0 <= offset <= |body|
      invariant buf[..headerLen] == base
      invariant sent + Fragments(h, body, offset) == Fragments(h, body, 0)
      invariant headerLen == 1000 ==> offset == 0
    {
      var chunk;
      chunk, sent := SendOne(buf, headerLen, fields, body, offset, sent, h);
      if chunk == 0 {
        return Sent(sent, true);
      }
      offset := offset + chunk;
    }
    return Sent(sent, false);
  }

  lemma FragmentsStep(sent: seq<seq<byte>>, h: Headers, body: seq<byte>, off: nat)
    requires off <= |body| && Chunk(h(off), |body| - off) > 0
    ensures var n := Chunk(h(off), |body| - off);
            (sent + [h(off) + body[off..off + n]]) + Fragments(h, body, off + n)
              == sent + Fragments(h, body, off)
  {
  }

  /** There is room for some of the body exactly when the base header is shorter
      than the buffer. */
  lemma RoomIff(base: seq<byte>, field: seq<byte>, left: nat)
    requires |base| <= 1000 && left > 0
    ensures Chunk(Extended(base, field), left) > 0 <==> |base| < 1000
  {
  }

  // -------------------------------------------------------------- what is sent

  /** A header leaves room for as much as the buffer holds, and no more is taken. */
  lemma ChunkIsLargest(header: seq<byte>, left: nat, n: nat)
    requires |header| <= 1000 && n <= left && |header| + n <= 1000
    ensures n <= Chunk(header, left) <= left && |header| + Chunk(header, left) <= 1000
  {
  }

  /** Every datagram but the last of a message fills the buffer. */
  lemma {:induction false} OnlyLastIsShort(h: Headers, body: seq<byte>, off: nat, i: nat)
    requires off <= |body| && i + 1 < |Fragments(h, body, off)|
    ensures |Fragments(h, body, off)[i]| == 1000
    decreases i
  {
    var n := Chunk(h(off), |body| - off);
    if i > 0 {
      OnlyLastIsShort(h, body, off + n, i - 1);
    }
  }

  lemma DecimalCons(n: nat, d: nat)
    requires n > 0 && d < 10
    ensures Decimal(10 * n + d) == Decimal(n) + ['0' as int + d]
  {
  }

  lemma Hundreds(a: nat, b: nat, c: nat)
    requires 0 < a < 10 && b < 10 && c < 10
    ensures Decimal(100 * a + 10 * b + c) == ['0' as int + a, '0' as int + b, '0' as int + c]
  {
    DecimalCons(a, b);
    DecimalCons(10 * a + b, c);
  }

  /** The field of offset abc in a body of def bytes, letter by letter. */
  lemma FieldText(a: nat, b: nat, c: nat, d: nat, e: nat, f: nat)
    requires 0 < a < 10 && b < 10 && c < 10 && 0 < d < 10 && e < 10 && f < 10
    ensures Field(100 * a + 10 * b + c, 100 * d + 10 * e + f)
         == [',' as int] + (['n' as int, 'c' as int, 'f' as int, 'r' as int, 'a' as int, 'g' as int, '=' as int]
            + (['0' as int + a, '0' as int + b, '0' as int + c] + ['/' as int]
               + ['0' as int + d, '0' as int + e, '0' as int + f])) + [';' as int]
  {
    Hundreds(a, b, c);
    Hundreds(d, e, f);
  }

  /** A message that fits goes out whole, as release, comma and text; only the last of
      1000 bytes behind a release is replaced. */
  lemma WholeMessage(release: Release, msg: seq<byte>)
    requires |release| + 1 + |msg| <= 1000
    ensures var text := release + [',' as int] + msg;
            Send(Some(release), msg) == Sent([if |text| == 1000 then text[..999] + [0] else text], false)
    ensures Send(None, msg) == Sent([msg], false)
  {
    assert Prefix(None) + msg == msg;
  }

  /** Every datagram of a split message starts with the release, a comma and the
      message's own header. */
  lemma {:induction false} StartsWithHeader(base: seq<byte>, fields: Headers, body: seq<byte>, off: nat, i: nat)
    requires |base| <= 1000 && off <= |body| && i < |Fragments(HeadersOf(base, fields), body, off)|
    ensures base <= Fragments(HeadersOf(base, fields), body, off)[i]
    decreases i
  {
    var h := HeadersOf(base, fields);
    var n := Chunk(h(off), |body| - off);
    if i > 0 {
      StartsWithHeader(base, fields, body, off + n, i - 1);
    } else {
      assert base <= Extended(base, fields(off));
    }
  }

  lemma BaseHeaderText(release: Release, msg: seq<byte>)
    ensures BaseHeader(Some(release), msg) == release + [',' as int] + msg[..Find(msg, SEMICOLON)]
    ensures BaseHeader(None, msg) == msg[..Find(msg, SEMICOLON)]
  {
  }

  /** Nothing is dropped silently: without a warning something is sent, unless the
      message ends with its header, and with a warning nothing is. */
  lemma WarnedIff(release: Option<Release>, msg: seq<byte>)
    requires Send(release, msg).Sent?
    ensures Send(release, msg).warned <==>
            Send(release, msg).sent == [] && Find(msg, ';' as int) + 1 != |msg|
  {
    if |msg| + |Prefix(release)| > 1000 && Find(msg, SEMICOLON) < |msg| {
      var base, body := BaseHeader(release, msg), msg[Find(msg, SEMICOLON) + 1..];
      if body != [] {
        RoomIff(base, FieldsOf(|body|)(0), |body|);
      }
    }
  }

  // -------------------------------------------------------------- the receiver

  datatype Fragment = Fragment(offset: nat, total: nat, chunk: seq<byte>)

  function DecimalValue(s: seq<byte>): int {
    if s == [] then 0 else 10 * DecimalValue(s[..|s| - 1]) + (s[|s| - 1] as int - '0' as int)
  }

  /** Position just behind the last c, or 0. */
  function BehindLast(s: seq<byte>, c: byte): (i: nat)
    ensures i <= |s|
  {
    if s == [] then 0 else if s[|s| - 1] == c then |s| else BehindLast(s[..|s| - 1], c)
  }

  /** Read the field ncfrag=offset/total. */
  function FromField(field: seq<byte>, chunk: seq<byte>): Option<Fragment> {
    if !(KEY <= field) then None
    else
      var numbers := field[|KEY|..];
      var mid := Find(numbers, SLASH);
      if mid == |numbers| then None
      else
        var off, total := DecimalValue(numbers[..mid]), DecimalValue(numbers[mid + 1..]);
        if off < 0 || total < 0 then None else Some(Fragment(off, total, chunk))
  }

  /** Read a datagram as a fragment: the header ends at the first ';' and its last
      field says which fragment it is. */
  function Decode(d: seq<byte>): Option<Fragment> {
    var end := Find(d, SEMICOLON);
    if end == |d| then None
    else FromField(d[..end][BehindLast(d[..end], COMMA)..], d[end + 1..])
  }

  lemma {:induction false} DecimalBack(n: nat)
    ensures DecimalValue(Decimal(n)) == n
  {
    var s := Decimal(n);
    if n >= 10 {
      assert s[..|s| - 1] == Decimal(n / 10);
      DecimalBack(n / 10);
    } else {
      assert s[..0] == [];
    }
  }

  lemma {:induction false} DecimalDigits(n: nat, c: byte)
    requires c in Decimal(n)
    ensures '0' as int <= c <= '9' as int
  {
    if n >= 10 && c in Decimal(n / 10) {
      DecimalDigits(n / 10, c);
    }
  }

  lemma OffsetsClean(off: nat, total: nat, c: byte)
    requires c in {COMMA, SEMICOLON}
    ensures c !in KEY + Offsets(off, total)
    ensures SLASH !in Decimal(off)
  {
    if c in Decimal(off) {
      DecimalDigits(off, c);
    }
    if c in Decimal(total) {
      DecimalDigits(total, c);
    }
    if SLASH in Decimal(off) {
      DecimalDigits(off, SLASH);
    }
  }

  lemma FindAt(a: seq<byte>, c: byte, b: seq<byte>)
    requires c !in a
    ensures Find(a + [c] + b, c) == |a|
  {
    var s := a + [c] + b;
    var i := Find(s, c);
    assert s[|a|] == c;
    assert forall k :: 0 <= k < |a| ==> s[k] == a[k];
    assert forall k :: 0 <= k < i ==> s[..i][k] == s[k];
  }

  lemma {:induction false} BehindLastAt(a: seq<byte>, c: byte, b: seq<byte>)
    requires c !in b
    ensures BehindLast(a + [c] + b, c) == |a| + 1
    decreases b
  {
    var s := a + [c] + b;
    if b != [] {
      assert s[..|s| - 1] == a + [c] + b[..|b| - 1];
      BehindLastAt(a, c, b[..|b| - 1]);
    }
  }

  lemma DecodeLastField(base: seq<byte>, field: seq<byte>, chunk: seq<byte>)
    requires SEMICOLON !in base && SEMICOLON !in field && COMMA !in field
    ensures Decode(base + [COMMA] + field + [SEMICOLON] + chunk) == FromField(field, chunk)
  {
    var header := base + [COMMA] + field;
    var d := header + [SEMICOLON] + chunk;
    FindAt(header, SEMICOLON, chunk);
    assert d[..|header|] == header && d[|header| + 1..] == chunk;
    BehindLastAt(base, COMMA, field);
    assert header[|base| + 1..] == field;
  }

  lemma DecodeOffsets(off: nat, total: nat)
    ensures var numbers := Offsets(off, total);
            && Find(numbers, SLASH) == |Decimal(off)| < |numbers|
            && DecimalValue(numbers[..|Decimal(off)|]) == off
            && DecimalValue(numbers[|Decimal(off)| + 1..]) == total
  {
    var numbers := Offsets(off, total);
    OffsetsClean(off, total, COMMA);
    FindAt(Decimal(off), SLASH, Decimal(total));
    assert numbers[..|Decimal(off)|] == Decimal(off);
    assert numbers[|Decimal(off)| + 1..] == Decimal(total);
    DecimalBack(off);
    DecimalBack(total);
  }

  lemma FromOffsets(off: nat, total: nat, chunk: seq<byte>)
    ensures FromField(KEY + Offsets(off, total), chunk) == Some(Fragment(off, total, chunk))
  {
    var field := KEY + Offsets(off, total);
    assert field[|KEY|..] == Offsets(off, total);
    DecodeOffsets(off, total);
  }

  lemma Reassociate(a: seq<byte>, b: seq<byte>, c: seq<byte>, d: seq<byte>, e: seq<byte>)
    ensures a + (b + c + d) + e == a + b + c + d + e
  {
  }

  lemma DecodeBetween(base: seq<byte>, field: seq<byte>, chunk: seq<byte>)
    requires SEMICOLON !in base && SEMICOLON !in field && COMMA !in field
    ensures Decode(base + ([COMMA] + field + [SEMICOLON]) + chunk) == FromField(field, chunk)
  {
    DecodeLastField(base, field, chunk);
    Reassociate(base, [COMMA], field, [SEMICOLON], chunk);
  }

  /** A datagram with a complete header decodes to what was sent. */
  lemma DecodeSent(base: seq<byte>, off: nat, total: nat, chunk: seq<byte>)
    requires SEMICOLON !in base
    ensures Decode(base + Field(off, total) + chunk) == Some(Fragment(off, total, chunk))
  {
    OffsetsClean(off, total, SEMICOLON);
    OffsetsClean(off, total, COMMA);
    DecodeBetween(base, KEY + Offsets(off, total), chunk);
    FromOffsets(off, total, chunk);
  }

  // ---------------------------------------------------------------- properties

  /** A field goes out complete exactly when it ends within the first 999 bytes. */
  lemma HeaderCompleteIff(base: seq<byte>, field: seq<byte>)
    requires |base| <= 1000 && field != []
    ensures Extended(base, field) == base + field <==> |base| + |field| <= 999
  {
    assert field[..|field|] == field;
  }

  /** No datagram is longer than the buffer. */
  lemma {:induction false} FragmentsBounded(h: Headers, body: seq<byte>, off: nat)
    requires off <= |body|
    ensures forall d :: d in Fragments(h, body, off) ==> |d| <= 1000
    decreases |body| - off
  {
    var n := Chunk(h(off), |body| - off);
    if n > 0 {
      FragmentsBounded(h, body, off + n);
    }
  }

  /** How a receiver reads datagrams. */
  type Decoder = seq<byte> -> Option<Fragment>

  /** The receiver reads back exactly this piece from its datagram. */
  predicate Understood(dec: Decoder, h: Headers, f: Fragment) {
    dec(h(f.offset) + f.chunk) == Some(f)
  }

  /** A datagram that carries data decodes to what was sent exactly when its field
      is complete; otherwise the ';' is missing and only the data could supply one. */
  lemma UnderstoodIff(base: seq<byte>, off: nat, total: nat, chunk: seq<byte>)
    requires SEMICOLON !in base && |base| < 1000 && chunk != []
    requires |Extended(base, Field(off, total))| + |chunk| <= 1000
    ensures Decode(Extended(base, Field(off, total)) + chunk) == Some(Fragment(off, total, chunk))
       <==> |base| + |Field(off, total)| <= 999
  {
    var field := Field(off, total);
    HeaderCompleteIff(base, field);
    if |base| + |field| <= 999 {
      DecodeSent(base, off, total, chunk);
    } else {
      OffsetsClean(off, total, SEMICOLON);
      CutFieldLost(base, [COMMA] + (KEY + Offsets(off, total)), chunk);
    }
  }

  lemma CutFieldLost(base: seq<byte>, field: seq<byte>, chunk: seq<byte>)
    requires SEMICOLON !in base && SEMICOLON !in field && |base| < 1000 && |chunk| == 1
    requires |base| + |field| >= 999
    ensures var d := Extended(base, field + [SEMICOLON]) + chunk;
            Decode(d).None? || Decode(d).value.chunk == []
  {
    var n := 999 - |base|;
    var h := Extended(base, field + [SEMICOLON]);
    assert h == base + field[..n];
    assert SEMICOLON !in h;
    var d := h + chunk;
    assert forall k :: 0 <= k < |h| ==> d[k] == h[k];
    assert Find(d, SEMICOLON) >= |h|;
  }

  /** The fragments a receiver can decode among some datagrams. */
  function DecodeAll(dec: Decoder, ds: seq<seq<byte>>): seq<Fragment> {
    if ds == [] then []
    else
      match dec(ds[0])
      case None => DecodeAll(dec, ds[1..])
      case Some(f) => [f] + DecodeAll(dec, ds[1..])
  }

  /** What the sender means to send from `off` on. */
  function Pieces(h: Headers, body: seq<byte>, off: nat): seq<Fragment>
    requires off <= |body|
    decreases |body| - off
  {
    var n := Chunk(h(off), |body| - off);
    if n == 0 then [] else [Fragment(off, |body|, body[off..off + n])] + Pieces(h, body, off + n)
  }

  lemma {:induction false} DecodeAllLength(dec: Decoder, ds: seq<seq<byte>>)
    ensures |DecodeAll(dec, ds)| <= |ds|
  {
    if ds != [] {
      DecodeAllLength(dec, ds[1..]);
    }
  }

  lemma {:induction false} SameNumber(h: Headers, body: seq<byte>, off: nat)
    requires off <= |body|
    ensures |Fragments(h, body, off)| == |Pieces(h, body, off)|
    decreases |body| - off
  {
    var n := Chunk(h(off), |body| - off);
    if n > 0 {
      SameNumber(h, body, off + n);
    }
  }

  /** Dropping a datagram or misreading one cannot be made up for by the others. */
  lemma DecodeConsIff(dec: Decoder, d: seq<byte>, rest: seq<seq<byte>>, f: Fragment, fs: seq<Fragment>)
    requires |rest| == |fs|
    ensures DecodeAll(dec, [d] + rest) == [f] + fs <==> dec(d) == Some(f) && DecodeAll(dec, rest) == fs
  {
    var all := [d] + rest;
    assert all[0] == d && all[1..] == rest;
    DecodeAllLength(dec, rest);
    if dec(d).Some? {
      var got := [dec(d).value] + DecodeAll(dec, rest);
      assert got[0] == dec(d).value && got[1..] == DecodeAll(dec, rest);
      assert ([f] + fs)[0] == f && ([f] + fs)[1..] == fs;
    }
  }

  /** A receiver decodes exactly the pieces, in order, if and only if it understands
      each of them. */
  lemma {:induction false} FragmentsDecodeIff(dec: Decoder, h: Headers, body: seq<byte>, off: nat)
    requires off <= |body|
    ensures DecodeAll(dec, Fragments(h, body, off)) == Pieces(h, body, off)
       <==> forall f :: f in Pieces(h, body, off) ==> Understood(dec, h, f)
    decreases |body| - off
  {
    var n := Chunk(h(off), |body| - off);
    if n > 0 {
      var f, fs := Fragment(off, |body|, body[off..off + n]), Pieces(h, body, off + n);
      FragmentsDecodeIff(dec, h, body, off + n);
      SameNumber(h, body, off + n);
      DecodeConsIff(dec, h(off) + f.chunk, Fragments(h, body, off + n), f, fs);
      assert Pieces(h, body, off) == [f] + fs;
      assert f in [f] + fs && forall g :: g in fs ==> g in [f] + fs;
    }
  }

  /** The field of every piece fits behind the base header. */
  ghost predicate FieldsFit(base: seq<byte>, fields: Headers, fs: seq<Fragment>) {
    forall f :: f in fs ==> |base| + |fields(f.offset)| <= 999
  }

  lemma {:induction false} PiecesShape(h: Headers, body: seq<byte>, off: nat, f: Fragment)
    requires off <= |body| && f in Pieces(h, body, off)
    ensures f.offset < |body| == f.total && f.chunk != [] && |h(f.offset)| + |f.chunk| <= 1000
    decreases |body| - off
  {
    var n := Chunk(h(off), |body| - off);
    if f in Pieces(h, body, off + n) {
      PiecesShape(h, body, off + n, f);
    }
  }

  /** The receiver gets every piece exactly when every field sent is complete. */
  lemma DecodesIffFieldsFit(base: seq<byte>, body: seq<byte>)
    requires SEMICOLON !in base && |base| < 1000
    ensures var h := HeadersOf(base, FieldsOf(|body|));
            FieldsFit(base, FieldsOf(|body|), Pieces(h, body, 0))
            <==> DecodeAll(Decode, Fragments(h, body, 0)) == Pieces(h, body, 0)
  {
    var h := HeadersOf(base, FieldsOf(|body|));
    FragmentsDecodeIff(Decode, h, body, 0);
    forall f | f in Pieces(h, body, 0)
      ensures Understood(Decode, h, f) <==> |base| + |FieldsOf(|body|)(f.offset)| <= 999
    {
      PiecesShape(h, body, 0, f);
      UnderstoodIff(base, f.offset, |body|, f.chunk);
    }
  }

  lemma {:induction false} DecimalGrows(m: nat, n: nat)
    requires m <= n
    ensures |Decimal(m)| <= |Decimal(n)|
  {
    if m >= 10 {
      DecimalGrows(m / 10, n / 10);
    }
  }

  /** One test in front of the loop is enough: the widest field is that of an offset
      as wide as the total. */
  lemma WidestFieldFits(base: seq<byte>, h: Headers, body: seq<byte>)
    requires |base| + |Field(|body|, |body|)| <= 999
    ensures FieldsFit(base, FieldsOf(|body|), Pieces(h, body, 0))
  {
    forall f | f in Pieces(h, body, 0)
      ensures |Field(f.offset, |body|)| <= |Field(|body|, |body|)|
    {
      PiecesShape(h, body, 0, f);
      DecimalGrows(f.offset, |body|);
    }
  }

  /** The data of fragments that follow each other from `at` on without gap or
      overlap. */
  function Tiled(fs: seq<Fragment>, at: nat, total: nat): Option<seq<byte>>
    decreases fs
  {
    if fs == [] then Some([])
    else if fs[0].offset != at || fs[0].total != total then None
    else
      match Tiled(fs[1..], at + |fs[0].chunk|, total)
      case None => None
      case Some(rest) => Some(fs[0].chunk + rest)
  }

  lemma TiledCons(f: Fragment, fs: seq<Fragment>, rest: seq<byte>)
    requires Tiled(fs, f.offset + |f.chunk|, f.total) == Some(rest)
    ensures Tiled([f] + fs, f.offset, f.total) == Some(f.chunk + rest)
  {
    assert ([f] + fs)[1..] == fs;
  }

  lemma CutBody(body: seq<byte>, off: nat, n: nat)
    requires off + n <= |body|
    ensures body[off..] == body[off..off + n] + body[off + n..]
  {
  }

  /** Every header leaves room for data. */
  ghost predicate Roomy(h: Headers) {
    forall k: nat :: |h(k)| < 1000
  }

  lemma HeadersRoomy(base: seq<byte>, fields: Headers)
    requires |base| < 1000
    ensures Roomy(HeadersOf(base, fields))
  {
    assert forall k: nat :: |Extended(base, fields(k))| < 1000;
  }

  /** The pieces in the order sent tile the body: each offset is the sum of the
      earlier chunk lengths, and the chunks joined are the body. */
  lemma {:induction false} PiecesTile(h: Headers, body: seq<byte>, off: nat)
    requires Roomy(h) && off <= |body|
    ensures Tiled(Pieces(h, body, off), off, |body|) == Some(body[off..])
    decreases |body| - off
  {
    if off < |body| {
      var n := Chunk(h(off), |body| - off);
      PiecesTile(h, body, off + n);
      TiledCons(Fragment(off, |body|, body[off..off + n]), Pieces(h, body, off + n), body[off + n..]);
      CutBody(body, off, n);
    } else {
      assert body[off..] == [];
    }
  }

  /** f is a part of the body. */
  ghost predicate PartOf(f: Fragment, body: seq<byte>) {
    f.offset + |f.chunk| <= |body| && f.chunk == body[f.offset..f.offset + |f.chunk|]
  }

  predicate Covers(f: Fragment, i: int) {
    f.offset <= i < f.offset + |f.chunk|
  }

  ghost predicate Covered(fs: seq<Fragment>, i: int) {
    exists f :: f in fs && Covers(f, i)
  }

  lemma {:induction false} TiledCovers(fs: seq<Fragment>, at: nat, body: seq<byte>)
    requires at <= |body| && Tiled(fs, at, |body|) == Some(body[at..])
    ensures forall f :: f in fs ==> PartOf(f, body)
    ensures forall i :: at <= i < |body| ==> Covered(fs, i)
    decreases fs
  {
    if fs != [] {
      var f := fs[0];
      var next := at + |f.chunk|;
      var rest := Tiled(fs[1..], next, |body|).value;
      assert body[at..][..|f.chunk|] == f.chunk && body[at..][|f.chunk|..] == rest;
      assert body[next..] == rest;
      TiledCovers(fs[1..], next, body);
      forall i | at <= i < |body|
        ensures Covered(fs, i)
      {
        if i < next {
          assert f in fs && Covers(f, i);
        } else {
          assert Covered(fs[1..], i);
          var e :| e in fs[1..] && Covers(e, i);
          assert e in fs;
        }
      }
    }
  }

  /** What a receiver makes of fragments in the order they arrive: each chunk goes
      to its offset. */
  function Assembled(fs: seq<Fragment>, total: nat): (r: seq<byte>)
    ensures |r| == total
  {
    if fs == [] then Zeros(total)
    else
      var before, f := Assembled(fs[..|fs| - 1], total), fs[|fs| - 1];
      if f.offset + |f.chunk| > total then before
      else before[..f.offset] + f.chunk + before[f.offset + |f.chunk|..]
  }

  lemma {:induction false} AssembledAt(fs: seq<Fragment>, body: seq<byte>, i: nat)
    requires i < |body| && (forall f :: f in fs ==> PartOf(f, body)) && Covered(fs, i)
    ensures Assembled(fs, |body|)[i] == body[i]
  {
    var n := |fs| - 1;
    var f := fs[n];
    assert f in fs;
    if !Covers(f, i) {
      var e :| e in fs && Covers(e, i);
      assert e in fs[..n];
      AssembledAt(fs[..n], body, i);
    }
  }

  lemma {:induction false} DecodeAllMembers(dec: Decoder, ds: seq<seq<byte>>, f: Fragment)
    ensures f in DecodeAll(dec, ds) <==> exists d :: d in ds && dec(d) == Some(f)
  {
    if ds != [] {
      DecodeAllMembers(dec, ds[1..], f);
      assert ds == [ds[0]] + ds[1..];
    }
  }

  lemma SameFragments(dec: Decoder, a: seq<seq<byte>>, b: seq<seq<byte>>)
    requires forall d :: d in a <==> d in b
    ensures forall f :: f in DecodeAll(dec, a) <==> f in DecodeAll(dec, b)
  {
    forall f: Fragment
      ensures f in DecodeAll(dec, a) <==> f in DecodeAll(dec, b)
    {
      DecodeAllMembers(dec, a, f);
      DecodeAllMembers(dec, b, f);
    }
  }

  /** Reassembly in any order and with any repetitions: a receiver that gets every
      datagram of a message, and no others, holds the body. */
  lemma AnyOrderReassembles(base: seq<byte>, body: seq<byte>, ds: seq<seq<byte>>)
    requires SEMICOLON !in base && |base| < 1000
    requires FieldsFit(base, FieldsOf(|body|), Pieces(HeadersOf(base, FieldsOf(|body|)), body, 0))
    requires forall d :: d in ds <==> d in Fragments(HeadersOf(base, FieldsOf(|body|)), body, 0)
    ensures Assembled(DecodeAll(Decode, ds), |body|) == body
  {
    DecodesIffFieldsFit(base, body);
    HeadersRoomy(base, FieldsOf(|body|));
    DecodedReassembles(Decode, HeadersOf(base, FieldsOf(|body|)), body, ds);
  }

  lemma DecodedReassembles(dec: Decoder, h: Headers, body: seq<byte>, ds: seq<seq<byte>>)
    requires DecodeAll(dec, Fragments(h, body, 0)) == Pieces(h, body, 0)
    requires Roomy(h)
    requires forall d :: d in ds <==> d in Fragments(h, body, 0)
    ensures Assembled(DecodeAll(dec, ds), |body|) == body
  {
    SameFragments(dec, ds, Fragments(h, body, 0));
    PiecesTile(h, body, 0);
    SameSetReassembles(DecodeAll(dec, ds), Pieces(h, body, 0), body);
  }

  lemma SameSetReassembles(fs: seq<Fragment>, sent: seq<Fragment>, body: seq<byte>)
    requires Tiled(sent, 0, |body|) == Some(body[0..])
    requires forall f :: f in fs <==> f in sent
    ensures Assembled(fs, |body|) == body
  {
    TiledCovers(sent, 0, body);
    forall i | 0 <= i < |body|
      ensures Assembled(fs, |body|)[i] == body[i]
    {
      assert Covered(sent, i);
      var f :| f in sent && Covers(f, i);
      assert f in fs;
      AssembledAt(fs, body, i);
    }
  }

  lemma BaseHeaderClean(release: Option<Release>, msg: seq<byte>)
    ensures SEMICOLON !in BaseHeader(release, msg)
  {
  }

  /** The same for a whole message: split messages are sent without a warning, and
      their datagrams in any order give the body back. */
  lemma MessageReassembles(release: Option<Release>, msg: seq<byte>, ds: seq<seq<byte>>)
    requires |msg| + |Prefix(release)| > 1000 && Find(msg, SEMICOLON) < |msg|
    requires |BaseHeader(release, msg)| < 1000
    requires var base, body := BaseHeader(release, msg), msg[Find(msg, SEMICOLON) + 1..];
             FieldsFit(base, FieldsOf(|body|), Pieces(HeadersOf(base, FieldsOf(|body|)), body, 0))
    requires forall d :: d in ds <==> d in Send(release, msg).sent
    ensures Send(release, msg).Sent? && !Send(release, msg).warned
    ensures var body := msg[Find(msg, SEMICOLON) + 1..];
            Assembled(DecodeAll(Decode, ds), |body|) == body
  {
    var base, body := BaseHeader(release, msg), msg[Find(msg, SEMICOLON) + 1..];
    BaseHeaderClean(release, msg);
    assert Send(release, msg) == Sent(Fragments(HeadersOf(base, FieldsOf(|body|)), body, 0), false);
    AnyOrderReassembles(base, body, ds);
  }

  /** The copy of the header leaves the static buffer exactly when the message is
      split and its first ';' is not among the bytes that fit behind the release. */
  lemma OverrunIff(release: Option<Release>, msg: seq<byte>)
    ensures Send(release, msg).Overrun?
       <==> && SEMICOLON in msg && |msg| + |Prefix(release)| > 1000
            && SEMICOLON !in msg[..1001 - |Prefix(release)|]
  {
    var i, n := Find(msg, SEMICOLON), 1001 - |Prefix(release)|;
    if |msg| >= n && i < n {
      assert i < |msg| ==> msg[..n][i] == SEMICOLON;
    } else if |msg| >= n {
      assert msg[..n] == msg[..i][..n];
    }
  }

  /** A message that is not split arrives as release, comma and text exactly when it
      carries no release or is shorter than the buffer; at 1000 bytes its last
      character is lost. */
  lemma SingleExactIff(release: Option<Release>, msg: seq<byte>)
    requires |msg| + |Prefix(release)| <= 1000 && NUL !in msg
    ensures Single(release, msg) == Prefix(release) + msg
       <==> release.None? || |Prefix(release) + msg| <= 999
  {
    var all := Prefix(release) + msg;
    if release.Some? && |all| == 1000 {
      assert Single(release, msg)[999] == NUL;
      assert all[999] == if msg == [] then COMMA else msg[|msg| - 1];
    }
  }
}
