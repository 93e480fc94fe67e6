/** Writing bytes into a buffer: memcpy, memset and struct.pack_into. */
module Buffers {
  import opened Bytes

  /** s with `data` written over it from position `at`. */
  function Overwrite(s: seq<byte>, at: nat, data: seq<byte>): (r: seq<byte>)
    requires at + |data| <= |s|
    ensures |r| == |s|
    ensures r[at..at + |data|] == data
    ensures forall i :: 0 <= i < at || at + |data| <= i < |s| ==> r[i] == s[i]
  {
    s[..at] + data + s[at + |data|..]
  }

  method CopyInto(dst: array<byte>, at: nat, data: seq<byte>)
    requires at + |data| <= dst.Length
    modifies dst
    ensures dst[..] == Overwrite(old(dst[..]), at, data)
  {
    for i := 0 to |data|
      invariant dst[..] == Overwrite(old(dst[..]), at, data[..i])
    {
      dst[at + i] := data[i];
    }
    assert data[..|data|] == data;
  }

  /** Write behind the first `at` bytes; the part in use grows by the data. */
  method CopyBehind(dst: array<byte>, at: nat, data: seq<byte>)
    requires at + |data| <= dst.Length
    modifies dst
    ensures dst[..at + |data|] == old(dst[..at]) + data
  {
    CopyInto(dst, at, data);
    assert dst[..at + |data|] == dst[..][..at + |data|];
  }

  /** Replace the whole contents. */
  method Fill(dst: array<byte>, data: seq<byte>)
    requires dst.Length == |data|
    modifies dst
    ensures dst[..] == data
  {
    CopyInto(dst, 0, data);
    assert dst[..] == dst[..][0..|data|];
  }
}
