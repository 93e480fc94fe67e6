/** Moving one block request between its memory and the FTL, directly or through
    the bounce buffer: drivers/nand-rk322x/rknand-port/rk_nand_blk.c. Memory is one
    array; a segment is an address range in it. */
module BlkTransfer {
  import opened Wrappers
  import opened Bytes
  import opened Buffers

  /** One bio segment; `high` means its page has no permanent kernel address. */
  datatype Segment = Segment(addr: nat, len: nat, high: bool)

  // ------------------------------------------------------------ definitions

  function Total(segs: seq<Segment>): nat {
    if segs == [] then 0 else segs[0].len + Total(segs[1..])
  }

  ghost predicate InBounds(segs: seq<Segment>, size: nat) {
    forall i :: 0 <= i < |segs| ==> segs[i].addr + segs[i].len <= size
  }

  predicate Apart(a: Segment, b: Segment) {
    a.addr + a.len <= b.addr || b.addr + b.len <= a.addr
  }

  ghost predicate Disjoint(segs: seq<Segment>) {
    forall i, k :: 0 <= i < k < |segs| ==> Apart(segs[i], segs[k])
  }

  predicate Inside(s: Segment, i: int) {
    s.addr <= i < s.addr + s.len
  }

  /** The bytes of the segments, one after the other. */
  function Gather(mem: seq<byte>, segs: seq<Segment>): (data: seq<byte>)
    requires InBounds(segs, |mem|)
    ensures |data| == Total(segs)
    decreases segs
  {
    if segs == [] then []
    else mem[segs[0].addr..segs[0].addr + segs[0].len] + Gather(mem, segs[1..])
  }

  /** The memory after the data has been dealt out to the segments in order. */
  function Scatter(mem: seq<byte>, segs: seq<Segment>, data: seq<byte>): (r: seq<byte>)
    requires InBounds(segs, |mem|) && |data| == Total(segs)
    ensures |r| == |mem|
    decreases segs
  {
    if segs == [] then mem
    else
      var s := segs[0];
      Scatter(Overwrite(mem, s.addr, data[..s.len]), segs[1..], data[s.len..])
  }

  /** Every page is mapped, no address is null, and each segment starts where the
      one before it ended. */
  ghost predicate Contiguous(segs: seq<Segment>) {
    && (forall i :: 0 <= i < |segs| ==> !segs[i].high && segs[i].addr != 0)
    && (forall i :: 0 < i < |segs| ==> segs[i].addr == segs[i - 1].addr + segs[i - 1].len)
  }

  // ----------------------------------------------------------- the direct path

  /** req_check_buffer_align: the address of the request's own memory when it can be
      used as one buffer. */
  method CheckBufferAlign(segs: seq<Segment>) returns (r: Option<nat>)
    ensures r.Some? <==> Contiguous(segs)
    ensures (exists i :: 0 <= i < |segs| && (segs[i].high || segs[i].addr == 0)) ==> r.None?
    ensures (exists i :: 0 < i < |segs| && segs[i].addr != segs[i - 1].addr + segs[i - 1].len) ==> r.None?
    ensures r.Some? && segs != [] ==> r.value == segs[0].addr
  {
    var first, next := 0, 0;
    for i := 0 to |segs|
      invariant Contiguous(segs[..i])
      invariant i > 0 ==> first == segs[0].addr && next == segs[i - 1].addr + segs[i - 1].len && next != 0
      invariant i == 0 ==> first == 0 && next == 0
    {
      var s := segs[i];
      assert segs[..i + 1][i] == s && segs[..i + 1][..i] == segs[..i];
      if s.high || s.addr == 0 {
        assert !Contiguous(segs);
        return None;
      }
      if first == 0 {
        first := s.addr;
      }
      if next != 0 && next != s.addr {
        assert !Contiguous(segs);
        return None;
      }
      next := s.addr + s.len;
    }
    assert segs[..|segs|] == segs;
    return Some(first);
  }

  lemma ContiguousRest(segs: seq<Segment>)
    requires Contiguous(segs) && segs != []
    ensures Contiguous(segs[1..])
    ensures |segs| > 1 ==> segs[1..][0].addr == segs[0].addr + segs[0].len
  {
  }

  /** Each segment starts where the one before it ended, the first one at `a`. */
  predicate Chained(segs: seq<Segment>, a: nat) {
    segs == [] || (segs[0].addr == a && Chained(segs[1..], a + segs[0].len))
  }

  lemma {:induction false} ContiguousChained(segs: seq<Segment>)
    requires Contiguous(segs) && segs != []
    ensures Chained(segs, segs[0].addr)
  {
    if |segs| > 1 {
      ContiguousRest(segs);
      ContiguousChained(segs[1..]);
    }
  }

  lemma {:induction false} ChainedBounds(segs: seq<Segment>, a: nat, size: nat)
    requires Chained(segs, a) && InBounds(segs, size) && a <= size
    ensures a + Total(segs) <= size
  {
    if segs != [] {
      ChainedBounds(segs[1..], a + segs[0].len, size);
    }
  }

  lemma SplitRange(s: seq<byte>, a: nat, b: nat, c: nat)
    requires a <= b <= c <= |s|
    ensures s[a..c] == s[a..b] + s[b..c]
  {
  }

  lemma GatherCons(mem: seq<byte>, segs: seq<Segment>, head: seq<byte>, tail: seq<byte>)
    requires segs != [] && InBounds(segs, |mem|)
    requires mem[segs[0].addr..segs[0].addr + segs[0].len] == head && Gather(mem, segs[1..]) == tail
    ensures Gather(mem, segs) == head + tail
  {
  }

  lemma {:induction false} ChainedGather(mem: seq<byte>, segs: seq<Segment>, a: nat)
    requires Chained(segs, a) && InBounds(segs, |mem|) && a + Total(segs) <= |mem|
    ensures mem[a..a + Total(segs)] == Gather(mem, segs)
    decreases segs
  {
    if segs != [] {
      var n := segs[0].len;
      ChainedGather(mem, segs[1..], a + n);
      GatherCons(mem, segs, mem[a..a + n], mem[a + n..a + Total(segs)]);
      SplitRange(mem, a, a + n, a + Total(segs));
    }
  }

  lemma OverwriteTwice(mem: seq<byte>, a: nat, n: nat, data: seq<byte>)
    requires a + |data| <= |mem| && n <= |data|
    ensures Overwrite(Overwrite(mem, a, data[..n]), a + n, data[n..]) == Overwrite(mem, a, data)
  {
  }

  lemma {:induction false} ChainedScatter(mem: seq<byte>, segs: seq<Segment>, a: nat, data: seq<byte>)
    requires Chained(segs, a) && InBounds(segs, |mem|) && |data| == Total(segs) && a + |data| <= |mem|
    ensures Overwrite(mem, a, data) == Scatter(mem, segs, data)
    decreases segs
  {
    if segs != [] {
      var n := segs[0].len;
      OverwriteTwice(mem, a, n, data);
      ChainedScatter(Overwrite(mem, a, data[..n]), segs[1..], a + n, data[n..]);
    }
  }

  /** The own memory of a contiguous request is one range; reading it is gathering
      the segments. */
  lemma {:induction false} DirectIsGather(mem: seq<byte>, segs: seq<Segment>)
    requires Contiguous(segs) && segs != [] && InBounds(segs, |mem|)
    ensures segs[0].addr + Total(segs) <= |mem|
    ensures mem[segs[0].addr..segs[0].addr + Total(segs)] == Gather(mem, segs)
  {
    ContiguousChained(segs);
    ChainedBounds(segs, segs[0].addr, |mem|);
    ChainedGather(mem, segs, segs[0].addr);
  }

  /** Overwriting that range is scattering to the segments. */
  lemma {:induction false} DirectIsScatter(mem: seq<byte>, segs: seq<Segment>, data: seq<byte>)
    requires Contiguous(segs) && segs != [] && InBounds(segs, |mem|) && |data| == Total(segs)
    ensures segs[0].addr + |data| <= |mem|
    ensures Overwrite(mem, segs[0].addr, data) == Scatter(mem, segs, data)
  {
    ContiguousChained(segs);
    ChainedBounds(segs, segs[0].addr, |mem|);
    ChainedScatter(mem, segs, segs[0].addr, data);
  }

  // ------------------------------------------------------------- what it means

  /** Bytes outside the segments keep their values. */
  lemma {:induction false} ScatterFrame(mem: seq<byte>, segs: seq<Segment>, data: seq<byte>, i: nat)
    requires InBounds(segs, |mem|) && |data| == Total(segs) && i < |mem|
    requires forall k :: 0 <= k < |segs| ==> !Inside(segs[k], i)
    ensures Scatter(mem, segs, data)[i] == mem[i]
    decreases segs
  {
    if segs != [] {
      var s := segs[0];
      assert !Inside(s, i);
      ScatterFrame(Overwrite(mem, s.addr, data[..s.len]), segs[1..], data[s.len..], i);
    }
  }

  /** Scattering what m holds in the segments makes the memory agree with m there. */
  lemma {:induction false} ScatterAgrees(mem: seq<byte>, m: seq<byte>, segs: seq<Segment>, i: nat)
    requires |m| == |mem| && InBounds(segs, |mem|) && i < |mem|
    requires mem[i] == m[i] || exists k :: 0 <= k < |segs| && Inside(segs[k], i)
    ensures Scatter(mem, segs, Gather(m, segs))[i] == m[i]
    decreases segs
  {
    if segs != [] {
      var s, rest := segs[0], segs[1..];
      var head, tail := m[s.addr..s.addr + s.len], Gather(m, rest);
      var next := Overwrite(mem, s.addr, head);
      assert (head + tail)[..s.len] == head && (head + tail)[s.len..] == tail;
      if Inside(s, i) {
        assert next[i] == next[s.addr..s.addr + s.len][i - s.addr];
      } else if mem[i] != m[i] {
        var k :| 0 <= k < |segs| && Inside(segs[k], i);
        assert Inside(rest[k - 1], i);
      }
      ScatterAgrees(next, m, rest, i);
    }
  }

  lemma {:induction false} GatherAlike(m: seq<byte>, n: seq<byte>, segs: seq<Segment>)
    requires |m| == |n| && InBounds(segs, |m|)
    requires forall k, i :: 0 <= k < |segs| && Inside(segs[k], i) ==> m[i] == n[i]
    ensures Gather(m, segs) == Gather(n, segs)
    decreases segs
  {
    if segs != [] {
      var s := segs[0];
      assert forall i :: s.addr <= i < s.addr + s.len ==> Inside(s, i);
      assert m[s.addr..s.addr + s.len] == n[s.addr..s.addr + s.len];
      GatherAlike(m, n, segs[1..]);
    }
  }

  /** The address of byte k of a request. */
  function Addr(segs: seq<Segment>, k: nat): nat
    requires k < Total(segs)
    decreases segs
  {
    if k < segs[0].len then segs[0].addr + k else Addr(segs[1..], k - segs[0].len)
  }

  /** Byte k of what is gathered stands at that address. */
  lemma {:induction false} GatherAt(mem: seq<byte>, segs: seq<Segment>, k: nat)
    requires InBounds(segs, |mem|) && k < Total(segs)
    ensures Addr(segs, k) < |mem| && Gather(mem, segs)[k] == mem[Addr(segs, k)]
    decreases segs
  {
    var n := segs[0].len;
    if k >= n {
      GatherAt(mem, segs[1..], k - n);
    }
  }

  /** Wherever two bytes of a request have the same address, the data have the same
      value. */
  ghost predicate AgreeWhereShared(segs: seq<Segment>, data: seq<byte>)
    requires |data| == Total(segs)
  {
    forall i, k :: 0 <= i < |data| && 0 <= k < |data| && Addr(segs, i) == Addr(segs, k) ==> data[i] == data[k]
  }

  ghost predicate IsAt(segs: seq<Segment>, k: int, a: int) {
    0 <= k < Total(segs) && Addr(segs, k) == a
  }

  /** Memory that has the data at the addresses of the request. */
  ghost function Holding(mem: seq<byte>, segs: seq<Segment>, data: seq<byte>): (m: seq<byte>)
    requires |data| == Total(segs)
    ensures |m| == |mem|
  {
    seq(|mem|, a requires 0 <= a < |mem| =>
      if k :| IsAt(segs, k, a) then data[k] else mem[a])
  }

  lemma HoldingGathers(mem: seq<byte>, segs: seq<Segment>, data: seq<byte>)
    requires InBounds(segs, |mem|) && |data| == Total(segs) && AgreeWhereShared(segs, data)
    ensures Gather(Holding(mem, segs, data), segs) == data
  {
    var m := Holding(mem, segs, data);
    forall k | 0 <= k < |data|
      ensures Gather(m, segs)[k] == data[k]
    {
      GatherAt(m, segs, k);
      assert IsAt(segs, k, Addr(segs, k));
    }
  }

  /** Whatever is gathered agrees where segments share memory. */
  lemma GatheredAgrees(mem: seq<byte>, segs: seq<Segment>)
    requires InBounds(segs, |mem|)
    ensures AgreeWhereShared(segs, Gather(mem, segs))
  {
    var data := Gather(mem, segs);
    forall i, k | 0 <= i < |data| && 0 <= k < |data| && Addr(segs, i) == Addr(segs, k)
      ensures data[i] == data[k]
    {
      GatherAt(mem, segs, i);
      GatherAt(mem, segs, k);
    }
  }

  lemma ScatterHolds(mem: seq<byte>, m: seq<byte>, segs: seq<Segment>)
    requires |m| == |mem| && InBounds(segs, |mem|)
    ensures Gather(Scatter(mem, segs, Gather(m, segs)), segs) == Gather(m, segs)
  {
    var r := Scatter(mem, segs, Gather(m, segs));
    forall k, i | 0 <= k < |segs| && Inside(segs[k], i)
      ensures m[i] == r[i]
    {
      ScatterAgrees(mem, m, segs, i);
    }
    GatherAlike(m, r, segs);
  }

  /** Segments may share memory. They hold the data after a scatter exactly when the
      data agree wherever they do. */
  lemma GatherScatterIff(mem: seq<byte>, segs: seq<Segment>, data: seq<byte>)
    requires InBounds(segs, |mem|) && |data| == Total(segs)
    ensures Gather(Scatter(mem, segs, data), segs) == data <==> AgreeWhereShared(segs, data)
  {
    if AgreeWhereShared(segs, data) {
      HoldingGathers(mem, segs, data);
      ScatterHolds(mem, Holding(mem, segs, data), segs);
    }
    GatheredAgrees(Scatter(mem, segs, data), segs);
  }

  lemma {:induction false} AddrInside(segs: seq<Segment>, k: nat) returns (n: nat)
    requires k < Total(segs)
    ensures n < |segs| && Inside(segs[n], Addr(segs, k))
    decreases segs
  {
    if k < segs[0].len {
      n := 0;
    } else {
      n := AddrInside(segs[1..], k - segs[0].len);
      n := n + 1;
    }
  }

  /** Disjoint segments share nothing. */
  lemma {:induction false} DisjointAddr(segs: seq<Segment>, i: nat, k: nat)
    requires Disjoint(segs) && i < k < Total(segs)
    ensures Addr(segs, i) != Addr(segs, k)
    decreases segs
  {
    var n := segs[0].len;
    if i >= n {
      DisjointAddr(segs[1..], i - n, k - n);
    } else if k >= n {
      var t := AddrInside(segs[1..], k - n);
      assert Apart(segs[0], segs[t + 1]);
    }
  }

  lemma DisjointAgrees(segs: seq<Segment>, data: seq<byte>)
    requires Disjoint(segs) && |data| == Total(segs)
    ensures AgreeWhereShared(segs, data)
  {
    forall i, k | 0 <= i < |data| && 0 <= k < |data| && Addr(segs, i) == Addr(segs, k)
      ensures i == k
    {
      if i < k {
        DisjointAddr(segs, i, k);
      } else if k < i {
        DisjointAddr(segs, k, i);
      }
    }
  }

  /** So gathering from disjoint segments gives back what was scattered to them. */
  lemma GatherScatter(mem: seq<byte>, segs: seq<Segment>, data: seq<byte>)
    requires InBounds(segs, |mem|) && Disjoint(segs) && |data| == Total(segs)
    ensures Gather(Scatter(mem, segs, data), segs) == data
  {
    DisjointAgrees(segs, data);
    GatherScatterIff(mem, segs, data);
  }

  // ------------------------------------------------------------ implementation

  datatype Op = Discard | Read | Write | OtherOp

  /** The request: `curBytes` is the size of its current segment, which is all that
      the capacity test looks at. */
  datatype Request = Request(op: Op, pos: nat, curBytes: nat, segs: seq<Segment>)

  datatype NandDev = NandDev(disableAccess: bool, readonly: bool, writeonly: bool,
                             offSize: nat, capacity: nat)

  /** What the closed FTL does with one call: its return value, and for a read the
      bytes it leaves in the buffer. */
  datatype Answer = Answer(ret: int, data: seq<byte>)

  datatype Call =
    | NoCall
    | FtlRead(start: nat, nsect: nat)
    | FtlWrite(start: nat, nsect: nat, data: seq<byte>)
    | FtlDiscard(start: nat, nsect: nat)

  predicate Allowed(dev: NandDev, op: Op) {
    !dev.disableAccess && !(op == Write && dev.readonly) && !(op == Read && dev.writeonly)
  }

  predicate InRange(dev: NandDev, req: Request) {
    req.pos + req.curBytes / 512 <= dev.capacity
  }

  /** What the block layer guarantees of a read or write request. Its segments may
      share memory: a request may name the same page twice. */
  ghost predicate WellFormed(req: Request, size: nat) {
    && req.segs != [] && InBounds(req.segs, size)
    && Total(req.segs) % 512 == 0 && Total(req.segs) <= 512 * 512
  }

  /** The bounce buffer's contents after the remaining segments. */
  function Collected(done: seq<byte>, mem: seq<byte>, segs: seq<Segment>): seq<byte>
    requires InBounds(segs, |mem|)
    decreases segs
  {
    if segs == [] then done
    else Collected(done + mem[segs[0].addr..segs[0].addr + segs[0].len], mem, segs[1..])
  }

  lemma {:induction false} CollectedIsGather(done: seq<byte>, mem: seq<byte>, segs: seq<Segment>)
    requires InBounds(segs, |mem|)
    ensures Collected(done, mem, segs) == done + Gather(mem, segs)
    decreases segs
  {
    if segs != [] {
      CollectedIsGather(done + mem[segs[0].addr..segs[0].addr + segs[0].len], mem, segs[1..]);
    }
  }

  /** One memcpy to the bounce buffer. */
  method CollectOne(mem: array<byte>, temp: array<byte>, p: nat, segs: seq<Segment>)
    requires mem != temp && segs != [] && InBounds(segs, mem.Length) && p + segs[0].len <= temp.Length
    modifies temp
    ensures Collected(temp[..p + segs[0].len], mem[..], segs[1..]) == Collected(old(temp[..p]), mem[..], segs)
  {
    var s := segs[0];
    CopyInto(temp, p, mem[s.addr..s.addr + s.len]);
    assert temp[..p + s.len] == old(temp[..p]) + mem[..][s.addr..s.addr + s.len];
  }

  /** The copy loop in front of a write through the bounce buffer. */
  method GatherInto(mem: array<byte>, temp: array<byte>, segs: seq<Segment>)
    requires mem != temp && InBounds(segs, mem.Length) && Total(segs) <= temp.Length
    modifies temp
    ensures temp[..Total(segs)] == Gather(mem[..], segs)
  {
    var p: nat, rest := 0, segs;
    CollectedIsGather(temp[..0], mem[..], segs);
    while rest != []
      invariant InBounds(rest, mem.Length)
      invariant p + Total(rest) == Total(segs)
      invariant Collected(temp[..p], mem[..], rest) == Gather(mem[..], segs)
      decreases rest
    {
      CollectOne(mem, temp, p, rest);
      p, rest := p + rest[0].len, rest[1..];
    }
  }

  /** One memcpy from the bounce buffer; `tail` is the data not yet dealt out. */
  method DealOne(mem: array<byte>, segs: seq<Segment>, src: seq<byte>, ghost tail: seq<byte>)
    requires segs != [] && InBounds(segs, mem.Length) && |tail| == Total(segs) && src == tail[..segs[0].len]
    modifies mem
    ensures Scatter(mem[..], segs[1..], tail[segs[0].len..]) == Scatter(old(mem[..]), segs, tail)
  {
    CopyInto(mem, segs[0].addr, src);
  }

  /** The copy loop behind a read through the bounce buffer. */
  method ScatterFrom(mem: array<byte>, temp: array<byte>, segs: seq<Segment>)
    requires mem != temp && InBounds(segs, mem.Length) && Total(segs) <= temp.Length
    modifies mem
    ensures mem[..] == Scatter(old(mem[..]), segs, temp[..Total(segs)])
  {
    DealAll(mem, temp[..Total(segs)], segs);
  }

  method DealAll(mem: array<byte>, data: seq<byte>, segs: seq<Segment>)
    requires InBounds(segs, mem.Length) && |data| == Total(segs)
    modifies mem
    ensures mem[..] == Scatter(old(mem[..]), segs, data)
  {
    var rest, tail := segs, data;
    while rest != []
      invariant InBounds(rest, mem.Length) && |tail| == Total(rest)
      invariant Scatter(mem[..], rest, tail) == Scatter(old(mem[..]), segs, data)
      decreases rest
    {
      var n := rest[0].len;
      DealOne(mem, rest, tail[..n], tail);
      rest, tail := rest[1..], tail[n..];
    }
  }

  /** do_blktrans_all_request: the FTL call that is made, the status, and the memory
      afterwards, the same whichever buffer is used. A refused read through the
      bounce buffer still copies the buffer's previous contents out. */
  method DoRequest(dev: NandDev, req: Request, mem: array<byte>, temp: array<byte>, ftl: Answer)
    returns (ok: bool, call: Call)
    requires mem != temp && temp.Length == 512 * 512
    requires req.op == Read || req.op == Write ==> WellFormed(req, mem.Length)
    requires req.op == Read ==> |ftl.data| == Total(req.segs)
    modifies mem, temp
    ensures !InRange(dev, req) || req.op == OtherOp ==> !ok && call == NoCall
    ensures call == NoCall ==> !ok
    ensures call != NoCall ==> ok == (ftl.ret == 0)
    ensures req.pos + req.curBytes / 512 > dev.capacity ==> call == NoCall
    ensures req.op == Read && req.pos + req.curBytes / 512 <= dev.capacity ==>
      (call.FtlRead? <==> !dev.disableAccess && !dev.writeonly)
    ensures req.op == Write && req.pos + req.curBytes / 512 <= dev.capacity ==>
      (call.FtlWrite? <==> !dev.disableAccess && !dev.readonly)
    ensures InRange(dev, req) && req.op == Discard ==> call == FtlDiscard(req.pos, req.curBytes / 512)
    ensures InRange(dev, req) && req.op == Write ==>
      call == if Allowed(dev, Write)
              then FtlWrite(req.pos + dev.offSize, Total(req.segs) / 512, Gather(old(mem[..]), req.segs))
              else NoCall
    ensures InRange(dev, req) && req.op == Read ==>
      call == if Allowed(dev, Read)
              then FtlRead(req.pos + dev.offSize, Total(req.segs) / 512)
              else NoCall
    ensures call.FtlRead? ==> mem[..] == Scatter(old(mem[..]), req.segs, ftl.data)
    ensures call.FtlRead? ==>
      (Gather(mem[..], req.segs) == ftl.data <==> AgreeWhereShared(req.segs, ftl.data))
    ensures call.FtlRead? && Disjoint(req.segs) ==> Gather(mem[..], req.segs) == ftl.data
    ensures !call.FtlRead? ==>
      mem[..] == if req.op == Read && InRange(dev, req) && !Contiguous(req.segs)
                 then Scatter(old(mem[..]), req.segs, old(temp[..])[..Total(req.segs)])
                 else old(mem[..])
  {
    if req.pos + req.curBytes / 512 > dev.capacity {
      return false, NoCall;
    }
    match req.op {
      case Discard =>
        return ftl.ret == 0, FtlDiscard(req.pos, req.curBytes / 512);
      case Read =>
        ok, call := DoRead(dev, req, mem, temp, ftl);
      case Write =>
        ok, call := DoWrite(dev, req, mem, temp, ftl);
      case OtherOp =>
        return false, NoCall;
    }
  }

  method DoRead(dev: NandDev, req: Request, mem: array<byte>, temp: array<byte>, ftl: Answer)
    returns (ok: bool, call: Call)
    requires mem != temp && temp.Length == 512 * 512 && WellFormed(req, mem.Length)
    requires |ftl.data| == Total(req.segs)
    modifies mem, temp
    ensures ok == (call != NoCall && ftl.ret == 0)
    ensures call == if Allowed(dev, Read)
                    then FtlRead(req.pos + dev.offSize, Total(req.segs) / 512)
                    else NoCall
    ensures call != NoCall ==> mem[..] == Scatter(old(mem[..]), req.segs, ftl.data)
    ensures call != NoCall ==>
              (Gather(mem[..], req.segs) == ftl.data <==> AgreeWhereShared(req.segs, ftl.data))
    ensures call != NoCall && Disjoint(req.segs) ==> Gather(mem[..], req.segs) == ftl.data
    ensures call == NoCall ==>
              mem[..] == if Contiguous(req.segs) then old(mem[..])
                         else Scatter(old(mem[..]), req.segs, old(temp[..])[..Total(req.segs)])
  {
    var n := Total(req.segs);
    var own := CheckBufferAlign(req.segs);
    if Allowed(dev, Read) {
      call := FtlRead(req.pos + dev.offSize, n / 512);
      if own.Some? {
        DirectIsScatter(mem[..], req.segs, ftl.data);
        CopyInto(mem, own.value, ftl.data);
      } else {
        CopyInto(temp, 0, ftl.data);
        assert temp[..n] == ftl.data;
      }
    } else {
      call := NoCall;
    }
    if own.None? {
      assert call == NoCall ==> temp[..n] == old(temp[..])[..n];
      ScatterFrom(mem, temp, req.segs);
    }
    GatherScatterIff(old(mem[..]), req.segs, ftl.data);
    if Disjoint(req.segs) {
      DisjointAgrees(req.segs, ftl.data);
    }
    return call != NoCall && ftl.ret == 0, call;
  }

  method DoWrite(dev: NandDev, req: Request, mem: array<byte>, temp: array<byte>, ftl: Answer)
    returns (ok: bool, call: Call)
    requires mem != temp && temp.Length == 512 * 512 && WellFormed(req, mem.Length)
    modifies temp
    ensures ok == (call != NoCall && ftl.ret == 0)
    ensures call == if Allowed(dev, Write)
                    then FtlWrite(req.pos + dev.offSize, Total(req.segs) / 512, Gather(mem[..], req.segs))
                    else NoCall
  {
    var n := Total(req.segs);
    var own := CheckBufferAlign(req.segs);
    var data: seq<byte>;
    if own.Some? {
      DirectIsGather(mem[..], req.segs);
      data := mem[own.value..own.value + n];
    } else {
      GatherInto(mem, temp, req.segs);
      data := temp[..n];
    }
    if !Allowed(dev, Write) {
      return false, NoCall;
    }
    return ftl.ret == 0, FtlWrite(req.pos + dev.offSize, n / 512, data);
  }
}
