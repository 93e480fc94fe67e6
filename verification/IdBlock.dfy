/** The BootROM boot block: build_idblock and inspect in tools/mk-idblock.py. */
module IdBlock {
  import opened Wrappers
  import opened Bytes
  import opened Buffers
  import opened Rc4

  const RC4_KEY: seq<byte> := [124, 78, 3, 4, 85, 5, 9, 7, 45, 44, 123, 56, 23, 13, 23, 17]
  const RK_MAGIC: nat := 0x0FF0_AA55

  datatype Error = Misaligned | FieldOverflow | Truncated

  /** The header fields as inspect decodes them; sizes are in 512-byte blocks. */
  datatype Info = Info(magic: nat, disableRc4: nat, initOffset: nat, initSize: nat, bootSize: nat)

  // ------------------------------------------------------------ definitions

  function Header(initSize: nat, bootSize: nat): (h: seq<byte>)
    requires initSize < U16 && bootSize < U16
    ensures |h| == 2048
  {
    var h0 := Overwrite(Zeros(2048), 0, Pack32(RK_MAGIC));
    var h1 := Overwrite(h0, 8, Pack32(1));
    var h2 := Overwrite(h1, 12, Pack16(4));
    var h3 := Overwrite(h2, 506, Pack16(initSize));
    Overwrite(h3, 508, Pack16(bootSize))
  }

  function Encrypted(block: seq<byte>): seq<byte> {
    Crypt(block, RC4_KEY)
  }

  function Idblock(ddr: seq<byte>, loader: seq<byte>): Result<seq<byte>, Error> {
    if |ddr| % 512 != 0 || |loader| % 512 != 0 then
      Err(Misaligned)
    else if |ddr| / 512 >= U16 || (|ddr| + |loader|) / 512 >= U16 then
      Err(FieldOverflow)
    else
      var h := Header(|ddr| / 512, (|ddr| + |loader|) / 512);
      Ok(Encrypted(h[..512]) + h[512..] + ddr + loader)
  }

  function Fields(h: seq<byte>): Info
    requires |h| >= 510
  {
    Info(Unpack32(h[..4]), Unpack32(h[8..12]), Unpack16(h[12..14]),
         Unpack16(h[506..508]), Unpack16(h[508..510]))
  }

  function Inspect(raw: seq<byte>): Result<Info, Error> {
    var h := Encrypted(if |raw| < 512 then raw else raw[..512]);
    if |h| < 510 then
      Err(Truncated)
    else
      Ok(Fields(h))
  }

  // ----------------------------------------------------------- implementation

  method BuildIdblock(ddr: seq<byte>, loader: seq<byte>) returns (r: Result<seq<byte>, Error>)
    ensures r == Idblock(ddr, loader)
  {
    if |ddr| % 512 != 0 || |loader| % 512 != 0 {
      return Err(Misaligned);
    }
    var header := new byte[2048](_ => 0);
    assert header[..] == Zeros(2048);
    CopyInto(header, 0, Pack32(RK_MAGIC));
    CopyInto(header, 8, Pack32(1));
    CopyInto(header, 12, Pack16(4));
    if |ddr| / 512 >= U16 {
      return Err(FieldOverflow);
    }
    CopyInto(header, 506, Pack16(|ddr| / 512));
    if (|ddr| + |loader|) / 512 >= U16 {
      return Err(FieldOverflow);
    }
    CopyInto(header, 508, Pack16((|ddr| + |loader|) / 512));
    var first := Rc4.Rc4(header[..512], RC4_KEY);
    assert header[..][..512] == header[..512] && header[..][512..] == header[512..];
    return Ok(first + header[512..] + ddr + loader);
  }

  // ---------------------------------------------------------------- properties

  lemma HeaderFields(initSize: nat, bootSize: nat)
    requires initSize < U16 && bootSize < U16
    ensures var h := Header(initSize, bootSize);
            && h[..4] == Pack32(RK_MAGIC)
            && h[8..12] == Pack32(1)
            && h[12..14] == Pack16(4)
            && h[506..508] == Pack16(initSize)
            && h[508..510] == Pack16(bootSize)
            && (forall i :: 4 <= i < 8 || 14 <= i < 506 || 510 <= i < 2048 ==> h[i] == 0)
  {
  }

  lemma EncryptedBack(block: seq<byte>)
    ensures |Encrypted(block)| == |block|
    ensures Encrypted(Encrypted(block)) == block
  {
    CryptLaws(block, RC4_KEY, 0);
  }

  /** Building succeeds exactly for whole blocks whose combined count fits in 16
      bits; inspect then recovers every header field, and the offsets it prints
      cut the two blobs back out exactly. */
  lemma InspectBuilt(ddr: seq<byte>, loader: seq<byte>)
    ensures Idblock(ddr, loader).Ok?
       <==> |ddr| % 512 == 0 && |loader| % 512 == 0 && (|ddr| + |loader|) / 512 < U16
    ensures Idblock(ddr, loader).Ok? ==>
              var raw := Idblock(ddr, loader).value;
              var n := |ddr| / 512;
              && |raw| == 2048 + |ddr| + |loader|
              && Inspect(raw) == Ok(Info(RK_MAGIC, 1, 4, n, (|ddr| + |loader|) / 512))
              && raw[4 * 512..(4 + n) * 512] == ddr
              && raw[(4 + n) * 512..] == loader
  {
    if Idblock(ddr, loader).Ok? {
      var raw := Idblock(ddr, loader).value;
      var m, n := |ddr| / 512, (|ddr| + |loader|) / 512;
      var h := Header(m, n);
      EncryptedBack(h[..512]);
      assert raw[..512] == Encrypted(h[..512]);
      FieldsOfHeader(m, n);
    }
  }

  /** The rest of the header's 2048 bytes stays zero and in the clear. */
  lemma PaddingIsZero(ddr: seq<byte>, loader: seq<byte>, i: nat)
    requires Idblock(ddr, loader).Ok? && 512 <= i < 2048
    ensures |Idblock(ddr, loader).value| > i && Idblock(ddr, loader).value[i] == 0
  {
    var m, n := |ddr| / 512, (|ddr| + |loader|) / 512;
    var h := Header(m, n);
    HeaderFields(m, n);
    EncryptedBack(h[..512]);
    assert Idblock(ddr, loader).value[i] == h[512..][i - 512];
  }

  lemma FieldsOfHeader(m: nat, n: nat)
    requires m < U16 && n < U16
    ensures Fields(Header(m, n)[..512]) == Info(RK_MAGIC, 1, 4, m, n)
  {
    HeaderFields(m, n);
    var h := Header(m, n);
    var b := h[..512];
    assert b[..4] == h[..4] && b[8..12] == h[8..12] && b[12..14] == h[12..14];
    assert b[506..508] == h[506..508] && b[508..510] == h[508..510];
    Unpack32Pack32(RK_MAGIC);
    Unpack32Pack32(1);
    Unpack16Pack16(4);
    Unpack16Pack16(m);
    Unpack16Pack16(n);
  }

  /** The first four media bytes do not depend on the blobs. */
  lemma FirstWordIsConstant(ddr: seq<byte>, loader: seq<byte>)
    requires Idblock(ddr, loader).Ok?
    ensures Idblock(ddr, loader).value[..4] == Encrypted(Pack32(RK_MAGIC))
  {
    var m, n := |ddr| / 512, (|ddr| + |loader|) / 512;
    var block := Header(m, n)[..512];
    HeaderFields(m, n);
    assert block[..4] == Pack32(RK_MAGIC);
    CryptLaws(block, RC4_KEY, 4);
  }
}
