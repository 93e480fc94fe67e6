/** Sending an idblock to the driver in chunks: tools/rknand-write-loader.py, with
    the kernel's handlers as that file documents them. */
module LoaderUpload {
  import opened Wrappers
  import opened Bits
  import opened Bytes
  import opened Crc
  import IdBlock
  import IdKey
  import RkParam

  const IDB_MAGIC: nat := 0xFCDC_8C3B
  const CHUNK: nat := 4088
  const MAX_IMAGE: nat := 256000
  const MAX_OFFSET: nat := 0x3d800

  // -------------------------------------------------------------- the requests

  type Frame = f: seq<byte> | |f| == 4096 witness Zeros(4096)

  /** struct write_req: offset, length and up to 4088 bytes, 4096 bytes in all. */
  function WriteRequest(offset: nat, chunk: seq<byte>): Frame
    requires offset < U32 && |chunk| <= CHUNK
  {
    Pack32(offset) + Pack32(|chunk|) + chunk + Zeros(CHUNK - |chunk|)
  }

  /** struct end_req: length, checksum and five block numbers, absent ones 0. */
  function EndRequest(total: nat, crc: nat, blocks: seq<nat>): (frame: seq<byte>)
    requires total < U32 && crc < U32
    requires forall i :: 0 <= i < |blocks| ==> blocks[i] < U32
    ensures |frame| == 28
  {
    Pack32(total) + Pack32(crc)
      + Word(blocks, 0) + Word(blocks, 1) + Word(blocks, 2) + Word(blocks, 3) + Word(blocks, 4)
  }

  function Word(blocks: seq<nat>, i: nat): (w: seq<byte>)
    requires forall i :: 0 <= i < |blocks| ==> blocks[i] < U32
    ensures |w| == 4
  {
    Pack32(if i < |blocks| then blocks[i] else 0)
  }

  datatype Outcome =
    | TooSmall
    | NotIdblock
    | TooLarge
    | DryRun
    | Sent(requests: seq<Frame>, end: seq<byte>)

  /** The requests for the part of the image from `off` on. */
  function Requests(img: seq<byte>, off: nat): seq<Frame>
    requires off <= |img| < U32
    decreases |img| - off
  {
    if off == |img| then []
    else
      var next := if off + CHUNK <= |img| then off + CHUNK else |img|;
      [WriteRequest(off, img[off..next])] + Requests(img, next)
  }

  lemma {:induction false} RequestsSnoc(img: seq<byte>, off: nat, done: seq<Frame>)
    requires off < |img| < U32
    ensures var next := if off + CHUNK <= |img| then off + CHUNK else |img|;
            done + Requests(img, off)
              == done + [WriteRequest(off, img[off..next])] + Requests(img, next)
  {
  }

  /** tools/rknand-write-loader.py, write_loader: which images are refused, and
      what is sent for the others. */
  method WriteLoader(img: seq<byte>, blocks: seq<nat>, dry: bool) returns (r: Outcome)
    requires forall i :: 0 <= i < |blocks| ==> blocks[i] < U32
    ensures r == TooSmall <==> |img| < 4
    ensures r == NotIdblock <==> |img| >= 4 && Unpack32(img[..4]) != IDB_MAGIC
    ensures r == TooLarge <==>
              |img| >= 4 && Unpack32(img[..4]) == IDB_MAGIC && |img| > MAX_IMAGE
    ensures r.Sent? ==> !dry && 4 <= |img| <= MAX_IMAGE
    ensures r.Sent? ==> r.requests == Requests(img, 0)
    ensures r.Sent? ==> r.end == EndRequest(|img|, RkParam.Checksum(img), blocks)
    ensures r == DryRun ==> dry
  {
    if |img| < 4 {
      return TooSmall;
    }
    if Unpack32(img[..4]) != IDB_MAGIC {
      return NotIdblock;
    }
    var total := |img|;
    if total > MAX_IMAGE {
      return TooLarge;
    }
    var crc := TableCrc32(img, Clear(32));
    if dry {
      return DryRun;
    }
    var requests: seq<Frame> := [];
    var off := 0;
    while off < total
      invariant 0 <= off <= total
      invariant requests + Requests(img, off) == Requests(img, 0)
    {
      var chunk := img[off..if off + CHUNK <= |img| then off + CHUNK else |img|];
      RequestsSnoc(img, off, requests);
      requests := requests + [WriteRequest(off, chunk)];
      off := off + |chunk|;
    }
    NatOfBound(crc);
    Pow2Of32();
    return Sent(requests, EndRequest(total, NatOf(crc), blocks));
  }

  // ---------------------------------------------------------------- the kernel

  /** The WRITE_SECTOR handler: refuse a request over the caps, else copy its data
      into the loader buffer. */
  function HandleWrite(buf: seq<byte>, frame: Frame): (r: Option<seq<byte>>)
    requires |buf| == MAX_IMAGE
    ensures r.Some? ==> |r.value| == MAX_IMAGE
  {
    var off, len := Unpack32(frame[..4]), Unpack32(frame[4..8]);
    if off <= MAX_OFFSET && len <= CHUNK then
      Some(buf[..off] + frame[8..8 + len] + buf[off + len..])
    else
      None
  }

  function HandleWrites(buf: seq<byte>, frames: seq<Frame>): (r: Option<seq<byte>>)
    requires |buf| == MAX_IMAGE
    ensures r.Some? ==> |r.value| == MAX_IMAGE
    decreases frames
  {
    if frames == [] then Some(buf)
    else
      match HandleWrite(buf, frames[0])
      case None => None
      case Some(b) => HandleWrites(b, frames[1..])
  }

  /** The checks of the END_WRITE handler before it commits the buffer. */
  predicate EndAccepted(buf: seq<byte>, end: seq<byte>)
    requires |buf| == MAX_IMAGE && |end| == 28
  {
    var len, crc := Unpack32(end[..4]), Unpack32(end[4..8]);
    len <= MAX_IMAGE && crc == RkParam.Checksum(buf[..len])
  }

  // ---------------------------------------------------------------- properties

  function Offset(frame: Frame): nat {
    Unpack32(frame[..4])
  }

  function Data(frame: Frame): seq<byte> {
    var len := Unpack32(frame[4..8]);
    if len <= CHUNK then frame[8..8 + len] else []
  }

  /** The data of requests that follow each other without gap or overlap. */
  function Tiled(frames: seq<Frame>, at: nat): Option<seq<byte>>
    decreases frames
  {
    if frames == [] then Some([])
    else if Offset(frames[0]) != at then None
    else
      match Tiled(frames[1..], at + |Data(frames[0])|)
      case None => None
      case Some(rest) => Some(Data(frames[0]) + rest)
  }

  lemma DecodeRequest(off: nat, chunk: seq<byte>)
    requires off < U32 && |chunk| <= CHUNK
    ensures Offset(WriteRequest(off, chunk)) == off && Data(WriteRequest(off, chunk)) == chunk
  {
    var frame := WriteRequest(off, chunk);
    assert frame[..4] == Pack32(off);
    assert frame[4..8] == Pack32(|chunk|);
    assert frame[8..8 + |chunk|] == chunk;
    Unpack32Pack32(off);
    Unpack32Pack32(|chunk|);
  }

  /** The requests tile any image exactly. */
  lemma {:induction false} RequestsTile(img: seq<byte>, off: nat)
    requires off <= |img| < U32
    ensures Tiled(Requests(img, off), off) == Some(img[off..])
    decreases |img| - off
  {
    if off < |img| {
      var next := if off + CHUNK <= |img| then off + CHUNK else |img|;
      DecodeRequest(off, img[off..next]);
      RequestsTile(img, next);
      assert Requests(img, off)[1..] == Requests(img, next);
      assert img[off..] == img[off..next] + img[next..];
    } else {
      assert img[off..] == [];
    }
  }

  lemma HandleWriteRequest(buf: seq<byte>, off: nat, chunk: seq<byte>)
    requires |buf| == MAX_IMAGE && off < U32 && |chunk| <= CHUNK
    ensures HandleWrite(buf, WriteRequest(off, chunk))
         == if off <= MAX_OFFSET then Some(buf[..off] + chunk + buf[off + |chunk|..]) else None
  {
    DecodeRequest(off, chunk);
    assert WriteRequest(off, chunk)[4..8] == Pack32(|chunk|);
    Unpack32Pack32(|chunk|);
  }

  lemma HandleWritesCons(buf: seq<byte>, off: nat, chunk: seq<byte>, rest: seq<Frame>)
    requires |buf| == MAX_IMAGE && off < U32 && |chunk| <= CHUNK && off + |chunk| <= MAX_IMAGE
    ensures HandleWrites(buf, [WriteRequest(off, chunk)] + rest)
         == if off <= MAX_OFFSET then HandleWrites(buf[..off] + chunk + buf[off + |chunk|..], rest)
            else None
  {
    var frames := [WriteRequest(off, chunk)] + rest;
    assert frames[0] == WriteRequest(off, chunk) && frames[1..] == rest;
    HandleWriteRequest(buf, off, chunk);
  }

  /** The buffer after one more chunk. */
  lemma CopyChunk(img: seq<byte>, off: nat, next: nat, buf: seq<byte>)
    requires off <= next <= |img| <= |buf| && buf[..off] == img[..off]
    ensures var b := buf[..off] + img[off..next] + buf[next..];
            && |b| == |buf|
            && b[..next] == img[..next]
            && b[|img|..] == buf[|img|..]
            && (next == |img| ==> b == img + buf[|img|..])
  {
    assert img[..next] == img[..off] + img[off..next];
    assert img[..|img|] == img;
  }

  lemma UploadStep(img: seq<byte>, off: nat, next: nat, buf: seq<byte>)
    requires off < |img| <= MAX_IMAGE == |buf|
    requires next == if off + CHUNK <= |img| then off + CHUNK else |img|
    ensures HandleWrites(buf, Requests(img, off))
         == if off <= MAX_OFFSET then HandleWrites(buf[..off] + img[off..next] + buf[next..], Requests(img, next))
            else None
  {
    assert Requests(img, off) == [WriteRequest(off, img[off..next])] + Requests(img, next);
    HandleWritesCons(buf, off, img[off..next], Requests(img, next));
  }

  /** The kernel takes every request from chunk k on exactly when the last chunk
      starts at or below the offset cap; its buffer then holds the image and keeps
      what lay beyond it. */
  lemma {:induction false} UploadFrom(img: seq<byte>, k: nat, buf: seq<byte>, tail: seq<byte>)
    requires 4088 * k < |img| <= MAX_IMAGE
    requires |buf| == MAX_IMAGE && buf[..4088 * k] == img[..4088 * k] && buf[|img|..] == tail
    ensures HandleWrites(buf, Requests(img, 4088 * k))
         == if |img| <= 62 * 4088 then Some(img + tail) else None
    decreases |img| - 4088 * k
  {
    var off := 4088 * k;
    var next := if off + CHUNK <= |img| then off + CHUNK else |img|;
    UploadStep(img, off, next, buf);
    if off <= MAX_OFFSET {
      var b := buf[..off] + img[off..next] + buf[next..];
      CopyChunk(img, off, next, buf);
      if next < |img| {
        UploadFrom(img, k + 1, b, tail);
      }
    }
  }

  /** The whole upload: the kernel takes every request exactly when the image is
      at most 253456 bytes, although write_loader sends up to 256000; then the
      buffer holds the image and the commit passes its length and checksum test. */
  lemma UploadSucceedsIff(img: seq<byte>, buf: seq<byte>, blocks: seq<nat>)
    requires 4 <= |img| <= MAX_IMAGE && |buf| == MAX_IMAGE
    requires forall i :: 0 <= i < |blocks| ==> blocks[i] < U32
    ensures var r := HandleWrites(buf, Requests(img, 0));
            && (r.Some? <==> |img| <= 253456)
            && (r.Some? ==>
                  && r.value[..|img|] == img
                  && EndAccepted(r.value, EndRequest(|img|, RkParam.Checksum(img), blocks)))
  {
    UploadFrom(img, 0, buf, buf[|img|..]);
    if |img| <= 253456 {
      var done := img + buf[|img|..];
      assert done[..|img|] == img;
      EndAcceptedFor(img, done, blocks);
    }
  }

  /** The commit is accepted exactly when its length is at most 256000 and its checksum
      is that of so much of the buffer. */
  lemma EndAcceptedIff(buf: seq<byte>, total: nat, crc: nat, blocks: seq<nat>)
    requires |buf| == MAX_IMAGE && total < U32 && crc < U32
    requires forall i :: 0 <= i < |blocks| ==> blocks[i] < U32
    ensures EndAccepted(buf, EndRequest(total, crc, blocks))
       <==> total <= 256000 && crc == RkParam.Checksum(buf[..total])
  {
    EndFields(total, crc, blocks, 0);
  }

  lemma EndAcceptedFor(img: seq<byte>, buf: seq<byte>, blocks: seq<nat>)
    requires |img| <= MAX_IMAGE == |buf| && buf[..|img|] == img
    requires forall i :: 0 <= i < |blocks| ==> blocks[i] < U32
    ensures EndAccepted(buf, EndRequest(|img|, RkParam.Checksum(img), blocks))
  {
    EndAcceptedIff(buf, |img|, RkParam.Checksum(img), blocks);
  }

  /** The commit carries the length, the checksum and the first five block numbers in
      order, zero where none is given. */
  lemma EndFields(total: nat, crc: nat, blocks: seq<nat>, i: nat)
    requires total < U32 && crc < U32 && i < 5
    requires forall i :: 0 <= i < |blocks| ==> blocks[i] < U32
    ensures var end := EndRequest(total, crc, blocks);
            && Unpack32(end[..4]) == total && Unpack32(end[4..8]) == crc
            && Unpack32(end[8 + 4 * i..12 + 4 * i]) == if i < |blocks| then blocks[i] else 0
  {
    var end := EndRequest(total, crc, blocks);
    assert end[..4] == Pack32(total) && end[4..8] == Pack32(crc);
    assert end[8 + 4 * i..12 + 4 * i] == Word(blocks, i);
    Unpack32Pack32(total);
    Unpack32Pack32(crc);
    Unpack32Pack32(if i < |blocks| then blocks[i] else 0);
  }

  /** The magic test accepts every image that mk-idblock builds. */
  lemma BuiltImageAccepted(ddr: seq<byte>, loader: seq<byte>)
    requires IdBlock.Idblock(ddr, loader).Ok?
    ensures |IdBlock.Idblock(ddr, loader).value| >= 4
    ensures Unpack32(IdBlock.Idblock(ddr, loader).value[..4]) == IDB_MAGIC
  {
    IdBlock.InspectBuilt(ddr, loader);
    IdBlock.FirstWordIsConstant(ddr, loader);
    IdKey.FirstWord();
    MagicWord([0x3B, 0x8C, 0xDC, 0xFC]);
  }

  lemma MagicWord(x: seq<byte>)
    requires x == [0x3B, 0x8C, 0xDC, 0xFC]
    ensures Unpack32(x) == IDB_MAGIC
  {
    assert x[..2] == [0x3B, 0x8C] && x[2..] == [0xDC, 0xFC];
  }

  /** From build to commit: an idblock goes through write_loader's test and the kernel's
      handlers exactly when it is at most 253456 bytes long. */
  lemma BuiltThenUploaded(ddr: seq<byte>, loader: seq<byte>, buf: seq<byte>, blocks: seq<nat>)
    requires IdBlock.Idblock(ddr, loader).Ok? && |buf| == MAX_IMAGE
    requires |IdBlock.Idblock(ddr, loader).value| <= MAX_IMAGE
    requires forall i :: 0 <= i < |blocks| ==> blocks[i] < U32
    ensures var img := IdBlock.Idblock(ddr, loader).value;
            var r := HandleWrites(buf, Requests(img, 0));
            && 4 <= |img| && Unpack32(img[..4]) == IDB_MAGIC
            && (r.Some? <==> |ddr| + |loader| <= 251408)
            && (r.Some? ==>
                  && r.value[..|img|] == img
                  && EndAccepted(r.value, EndRequest(|img|, RkParam.Checksum(img), blocks)))
  {
    IdBlock.InspectBuilt(ddr, loader);
    BuiltImageAccepted(ddr, loader);
    UploadSucceedsIff(IdBlock.Idblock(ddr, loader).value, buf, blocks);
  }
}
