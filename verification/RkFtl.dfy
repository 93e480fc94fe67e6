/** The read-only FTL: drivers/nand-rk322x/ftl/rk-ftl.c and rk-ftl.h. Block
    devices, locking and allocation are not part of this model. */
module RkFtl {
  import opened Wrappers
  import opened Bytes
  import opened Buffers

  type Word = x: nat | x < 0x1_0000_0000

  type Page = p: seq<byte> | |p| == 8192 witness Zeros(8192)

  const INVALID: Word := 0xFFFF_FFFF

  /** One page read through the MTD layer: the data, or an error together with what
      it makes of the caller's buffer, which it may overwrite in any part. */
  datatype PageRead = Good(data: Page) | Failed(leaves: Page -> Page)

  /** Fixed media: what each physical page answers. */
  type Media = nat -> PageRead

  // ------------------------------------------------------------ address decode

  function PpaPage(ppa: Word): nat {
    ppa % 1024
  }

  function PpaBlock(ppa: Word): nat {
    ppa % 0x400_0000 / 1024
  }

  function Linear(pagesPerBlock: nat, ppa: Word): nat {
    PpaBlock(ppa) * pagesPerBlock + PpaPage(ppa)
  }

  /** An address is a block number above ten bits of page number; six more bits above
      bit 26, the SLC flag among them, do not count. */
  lemma LinearOfFields(pagesPerBlock: nat, flags: nat, block: nat, page: nat)
    requires flags < 64 && block < 0x1_0000 && page < 1024
    ensures Linear(pagesPerBlock, 0x400_0000 * flags + 1024 * block + page) == block * pagesPerBlock + page
  {
    FieldsBack(flags, block, page);
  }

  lemma FieldsBack(flags: nat, block: nat, page: nat)
    requires flags < 64 && block < 0x1_0000 && page < 1024
    ensures PpaBlock(0x400_0000 * flags + 1024 * block + page) == block
    ensures PpaPage(0x400_0000 * flags + 1024 * block + page) == page
  {
    var low := 1024 * block + page;
    assert (0x400_0000 * flags + low) % 0x400_0000 == low;
    assert low / 1024 == block && low % 1024 == page;
    assert (0x400_0000 * flags + low) % 1024 == (1024 * (0x1_0000 * flags + block) + page) % 1024 == page;
  }

  lemma {:induction false} LargerQuotient(a: nat, r: nat, d: nat, s: nat, m: nat)
    requires r < m
    ensures a * m + r < (a + 1 + d) * m + s
    decreases d
  {
    assert (a + 1 + d) * m == (a + d) * m + m;
    if d > 0 {
      LargerQuotient(a, r, d - 1, 0, m);
    }
  }

  lemma SameQuotient(a: nat, r: nat, b: nat, s: nat, m: nat)
    requires r < m && s < m && a * m + r == b * m + s
    ensures a == b && r == s
  {
    if a < b {
      LargerQuotient(a, r, b - a - 1, s, m);
    } else if b < a {
      LargerQuotient(b, s, a - b - 1, r, m);
    }
  }

  /** Two addresses whose page fields exist in a block reach the same physical page
      only if their low 26 bits agree; the higher bits do not matter. */
  lemma LinearInjective(pagesPerBlock: nat, a: Word, b: Word)
    requires PpaPage(a) < pagesPerBlock && PpaPage(b) < pagesPerBlock
    ensures Linear(pagesPerBlock, a) == Linear(pagesPerBlock, b) <==> a % 0x400_0000 == b % 0x400_0000
  {
    assert a % 0x400_0000 == 1024 * PpaBlock(a) + PpaPage(a);
    assert b % 0x400_0000 == 1024 * PpaBlock(b) + PpaPage(b);
    if Linear(pagesPerBlock, a) == Linear(pagesPerBlock, b) {
      SameQuotient(PpaBlock(a), PpaPage(a), PpaBlock(b), PpaPage(b), pagesPerBlock);
    }
  }

  /** Two different 26-bit addresses reach the same page. */
  predicate Collide(pagesPerBlock: nat, a: Word, b: Word) {
    && a < 0x400_0000 && b < 0x400_0000 && a != b
    && Linear(pagesPerBlock, a) == Linear(pagesPerBlock, b)
  }

  lemma LargeBlocksDoNot(pagesPerBlock: nat, a: Word, b: Word)
    requires pagesPerBlock >= 1024
    ensures !Collide(pagesPerBlock, a, b)
  {
    LinearInjective(pagesPerBlock, a, b);
  }

  /** With smaller blocks page pagesPerBlock of block 0 is page 0 of block 1. */
  lemma SmallBlocksCollide(pagesPerBlock: nat)
    requires pagesPerBlock < 1024
    ensures Collide(pagesPerBlock, pagesPerBlock, 1024)
  {
    assert PpaBlock(pagesPerBlock) == 0 && PpaPage(pagesPerBlock) == pagesPerBlock;
    assert PpaBlock(1024) == 1 && PpaPage(1024) == 0;
  }

  /** Over all 26-bit addresses the decode is injective exactly when a block has at
      least 1024 pages. */
  lemma LinearInjectiveIff(pagesPerBlock: nat)
    ensures (forall a: Word, b: Word :: !Collide(pagesPerBlock, a, b)) <==> pagesPerBlock >= 1024
  {
    if pagesPerBlock >= 1024 {
      forall a: Word, b: Word
        ensures !Collide(pagesPerBlock, a, b)
      {
        LargeBlocksDoNot(pagesPerBlock, a, b);
      }
    } else {
      SmallBlocksCollide(pagesPerBlock);
    }
  }

  // ---------------------------------------------------------- two-level lookup

  /** DIV_ROUND_UP(capacity, 2048) in 32-bit arithmetic. */
  function NumRegions(capacity: Word): nat {
    (capacity + 2047) % 0x1_0000_0000 / 2048
  }

  /** The regions cover the capacity exactly when the addition does not wrap. */
  lemma RegionsCoverIff(capacity: Word)
    ensures (forall n: nat :: n < capacity ==> n / 2048 < NumRegions(capacity))
       <==> capacity <= 0x1_0000_0000 - 2048
  {
    if capacity > 0x1_0000_0000 - 2048 {
      var n: nat := 0;
      assert n < capacity && !(n / 2048 < NumRegions(capacity));
    }
  }

  /** Entry i of a map page. */
  function MapWord(page: Page, i: nat): Word
    requires i < 2048
  {
    Unpack32(page[4 * i..4 * i + 4])
  }

  /** A map page as the vendor writes it. */
  function MapBytes(words: seq<Word>): (b: seq<byte>)
    ensures |b| == 4 * |words|
  {
    if words == [] then [] else Pack32(words[0]) + MapBytes(words[1..])
  }

  lemma {:induction false} MapBytesAt(words: seq<Word>, i: nat)
    requires i < |words|
    ensures MapBytes(words)[4 * i..4 * i + 4] == Pack32(words[i])
  {
    var w, rest := Pack32(words[0]), MapBytes(words[1..]);
    if i == 0 {
      assert (w + rest)[0..4] == w;
    } else {
      MapBytesAt(words[1..], i - 1);
      assert (w + rest)[4 * i..4 * i + 4] == rest[4 * (i - 1)..4 * (i - 1) + 4];
    }
  }

  /** Reading entry i of a map page gives back the word that was written. */
  lemma MapWordBack(words: seq<Word>, i: nat)
    requires |words| == 2048 && i < 2048
    ensures MapWord(MapBytes(words), i) == words[i]
  {
    MapBytesAt(words, i);
    Unpack32Pack32(words[i]);
  }

  /** The address of logical page n: entry n % 2048 of the map page of its region,
      invalid if the region has no map page or the page cannot be read. */
  function TwoLevel(regions: seq<Word>, pagesPerBlock: nat, media: Media, n: nat): Word {
    var r := n / 2048;
    if r >= |regions| || regions[r] == INVALID then INVALID
    else
      match media(Linear(pagesPerBlock, regions[r]))
      case Failed(_) => INVALID
      case Good(data) => MapWord(data, n % 2048)
  }

  // ------------------------------------------------------------- sector reads

  datatype Geometry = Geometry(pagesPerBlock: nat, l2p: seq<Word>)

  /** The page buffer and the logical page it holds, or INVALID. */
  datatype Cache = Cache(buf: Page, lpn: Word)

  type Sector = s: seq<byte> | |s| == 512 witness Zeros(512)

  function Slice(p: Page, sec: nat): Sector
    requires sec < 16
  {
    p[512 * sec..512 * sec + 512]
  }

  function Lpn(block: nat): Word {
    block / 16 % 0x1_0000_0000
  }

  /** What reading logical page lpn from the media gives: zeros for a hole. */
  function Fetch(g: Geometry, media: Media, lpn: Word): PageRead
    requires lpn < |g.l2p|
  {
    if g.l2p[lpn] == INVALID then Good(Zeros(8192))
    else media(Linear(g.pagesPerBlock, g.l2p[lpn]))
  }

  /** A sector read that ignores the cache; None is an I/O error. */
  function Uncached(g: Geometry, media: Media, block: nat): Option<Sector> {
    if Lpn(block) >= |g.l2p| then Some(Zeros(512))
    else
      match Fetch(g, media, Lpn(block))
      case Good(data) => Some(Slice(data, block % 16))
      case Failed(_) => None
  }

  /** The cache after a miss on lpn. */
  function Refill(g: Geometry, media: Media, c: Cache, lpn: Word): Cache
    requires lpn < |g.l2p|
  {
    match Fetch(g, media, lpn)
    case Good(data) => Cache(data, lpn)
    case Failed(leaves) => c.(buf := leaves(c.buf))
  }

  /** rk_ftl_readsect: the answer and the cache it leaves. */
  function ReadSector(g: Geometry, media: Media, c: Cache, block: nat): (Cache, Option<Sector>) {
    var lpn := Lpn(block);
    if lpn >= |g.l2p| then (c, Some(Zeros(512)))
    else if c.lpn == lpn then (c, Some(Slice(c.buf, block % 16)))
    else
      var c' := Refill(g, media, c, lpn);
      (c', if Fetch(g, media, lpn).Good? then Some(Slice(c'.buf, block % 16)) else None)
  }

  /** The answers to a sequence of reads. */
  function ReadAll(g: Geometry, media: Media, c: Cache, blocks: seq<nat>): seq<Option<Sector>>
    decreases blocks
  {
    if blocks == [] then []
    else
      var (c', r) := ReadSector(g, media, c, blocks[0]);
      [r] + ReadAll(g, media, c', blocks[1..])
  }

  function UncachedAll(g: Geometry, media: Media, blocks: seq<nat>): seq<Option<Sector>> {
    if blocks == [] then [] else [Uncached(g, media, blocks[0])] + UncachedAll(g, media, blocks[1..])
  }

  /** Byte i of the logical device, if its page can be read. */
  function DeviceByte(g: Geometry, media: Media, i: nat): Option<byte> {
    var lpn := i / 8192;
    if lpn >= |g.l2p| || lpn >= 0x1_0000_0000 then Some(0)
    else
      match Fetch(g, media, lpn)
      case Good(data) => Some(data[i % 8192])
      case Failed(_) => None
  }

  lemma SectorBytes(block: nat, k: nat)
    requires k < 512
    ensures (512 * block + k) / 8192 == block / 16
    ensures (512 * block + k) % 8192 == 512 * (block % 16) + k
  {
    var q, r := block / 16, block % 16;
    assert 512 * block + k == 8192 * q + (512 * r + k);
  }

  /** Sector n of the device is its bytes 512 n to 512 n + 511. */
  lemma SectorIsDevice(g: Geometry, media: Media, block: nat, k: nat)
    requires k < 512 && block / 16 < 0x1_0000_0000
    ensures match Uncached(g, media, block)
            case Some(s) => DeviceByte(g, media, 512 * block + k) == Some(s[k])
            case None => DeviceByte(g, media, 512 * block + k) == None
  {
    SectorBytes(block, k);
  }

  /** The tag is the sentinel, or the buffer holds the page it names. */
  ghost predicate Coherent(g: Geometry, media: Media, c: Cache) {
    c.lpn < |g.l2p| ==> Fetch(g, media, c.lpn) == Good(c.buf)
  }

  /** A failed read of one admitted page leaves every readable page as it is when that
      is what the buffer holds; in particular when it leaves the buffer alone. */
  ghost predicate Harmless(g: Geometry, media: Media) {
    forall a: Word, b: Word :: a < |g.l2p| && b < |g.l2p|
      && Fetch(g, media, a).Good? && Fetch(g, media, b).Failed?
      ==> Fetch(g, media, b).leaves(Fetch(g, media, a).data) == Fetch(g, media, a).data
  }

  lemma StepCoherent(g: Geometry, media: Media, c: Cache, block: nat)
    requires |g.l2p| < 0x1_0000_0000 && Coherent(g, media, c) && Harmless(g, media)
    ensures Coherent(g, media, ReadSector(g, media, c, block).0)
    ensures ReadSector(g, media, c, block).1 == Uncached(g, media, block)
  {
  }

  /** Over every sequence of reads on harmless media the cache is invisible. */
  lemma {:induction false} CacheInvisible(g: Geometry, media: Media, c: Cache, blocks: seq<nat>)
    requires |g.l2p| < 0x1_0000_0000 && Coherent(g, media, c) && Harmless(g, media)
    ensures ReadAll(g, media, c, blocks) == UncachedAll(g, media, blocks)
    decreases blocks
  {
    if blocks != [] {
      StepCoherent(g, media, c, blocks[0]);
      CacheInvisible(g, media, ReadSector(g, media, c, blocks[0]).0, blocks[1..]);
    }
  }

  lemma DifferentSlice(p: Page, q: Page) returns (sec: nat)
    requires p != q
    ensures sec < 16 && Slice(p, sec) != Slice(q, sec)
  {
    var i :| 0 <= i < 8192 && p[i] != q[i];
    sec := i / 512;
    assert Slice(p, sec)[i % 512] == p[i] && Slice(q, sec)[i % 512] == q[i];
  }

  lemma SectorOf(lpn: Word, sec: nat)
    requires sec < 16
    ensures Lpn(16 * lpn + sec) == lpn && (16 * lpn + sec) % 16 == sec
  {
  }

  /** On other media three reads reveal it: cache page a, fail on page b, read a. */
  lemma CacheVisible(g: Geometry, media: Media, junk: Page, a: Word, b: Word) returns (blocks: seq<nat>)
    requires |g.l2p| < 0x1_0000_0000 && a < |g.l2p| && b < |g.l2p|
    requires Fetch(g, media, a).Good? && Fetch(g, media, b).Failed?
    requires Fetch(g, media, b).leaves(Fetch(g, media, a).data) != Fetch(g, media, a).data
    ensures ReadAll(g, media, Cache(junk, INVALID), blocks) != UncachedAll(g, media, blocks)
  {
    var was := Fetch(g, media, a).data;
    var left := Fetch(g, media, b).leaves(was);
    var sec := DifferentSlice(left, was);
    var x, y, z := 16 * a + 0, 16 * b + 0, 16 * a + sec;
    SectorOf(a, 0);
    SectorOf(b, 0);
    SectorOf(a, sec);
    var c0 := Cache(junk, INVALID);
    var c1 := Cache(was, a);
    var c2 := Cache(left, a);
    assert ReadSector(g, media, c0, x).0 == c1;
    assert ReadSector(g, media, c1, y).0 == c2;
    blocks := [x] + ([y] + ([z] + []));
    ThirdRead(g, media, c0, x, y, z);
    assert ReadAll(g, media, c0, blocks)[2] == Some(Slice(c2.buf, sec));
  }

  lemma ThirdRead(g: Geometry, media: Media, c: Cache, x: nat, y: nat, z: nat)
    ensures var c1 := ReadSector(g, media, c, x).0;
            var c2 := ReadSector(g, media, c1, y).0;
            var blocks := [x] + ([y] + ([z] + []));
            && |ReadAll(g, media, c, blocks)| == |UncachedAll(g, media, blocks)| == 3
            && ReadAll(g, media, c, blocks)[2] == ReadSector(g, media, c2, z).1
            && UncachedAll(g, media, blocks)[2] == Uncached(g, media, z)
  {
    var c1 := ReadSector(g, media, c, x).0;
    var c2 := ReadSector(g, media, c1, y).0;
    ReadOne(g, media, c, x, [y] + ([z] + []));
    ReadOne(g, media, c1, y, [z] + []);
    ReadOne(g, media, c2, z, []);
  }

  lemma ReadOne(g: Geometry, media: Media, c: Cache, b: nat, rest: seq<nat>)
    ensures ReadAll(g, media, c, [b] + rest)
         == [ReadSector(g, media, c, b).1] + ReadAll(g, media, ReadSector(g, media, c, b).0, rest)
    ensures UncachedAll(g, media, [b] + rest) == [Uncached(g, media, b)] + UncachedAll(g, media, rest)
  {
    assert ([b] + rest)[1..] == rest;
  }

  /** From a buffer with the sentinel tag, every sequence of reads answers what the
      uncached reads answer exactly when failed reads are harmless. */
  lemma CacheInvisibleIff(g: Geometry, media: Media, junk: Page)
    requires |g.l2p| < 0x1_0000_0000
    ensures (forall blocks: seq<nat> ::
               ReadAll(g, media, Cache(junk, INVALID), blocks) == UncachedAll(g, media, blocks))
       <==> Harmless(g, media)
  {
    if Harmless(g, media) {
      forall blocks: seq<nat>
        ensures ReadAll(g, media, Cache(junk, INVALID), blocks) == UncachedAll(g, media, blocks)
      {
        CacheInvisible(g, media, Cache(junk, INVALID), blocks);
      }
    } else {
      var a: Word, b: Word :| a < |g.l2p| && b < |g.l2p|
        && Fetch(g, media, a).Good? && Fetch(g, media, b).Failed?
        && Fetch(g, media, b).leaves(Fetch(g, media, a).data) != Fetch(g, media, a).data;
      var blocks := CacheVisible(g, media, junk, a, b);
    }
  }

  /** As the boot steps stand, no region ever gets a map page, so after expansion
      every sector of the device reads as zeros without touching the media. */
  lemma BootedDeviceReadsZeros(g: Geometry, regions: seq<Word>, media: Media, block: nat)
    requires forall r :: 0 <= r < |regions| ==> regions[r] == INVALID
    requires forall n :: 0 <= n < |g.l2p| ==> g.l2p[n] == TwoLevel(regions, g.pagesPerBlock, media, n)
    ensures Uncached(g, media, block) == Some(Zeros(512)) && Harmless(g, media)
  {
    assert Slice(Zeros(8192), block % 16) == Zeros(512);
  }

  // ------------------------------------------------------------ implementation

  /** struct rk_ftl. */
  class Ftl {
    var capacity: Word
    var pagesPerBlock: nat
    var regionToPpa: array<Word>
    var l2p: array<Word>
    var pageBuf: array<byte>
    var pageBufLpn: Word

    ghost predicate Valid()
      reads this
    {
      pageBuf.Length == 8192
    }

    ghost predicate Mapped()
      reads this
    {
      Valid() && l2p.Length == capacity
    }

    ghost function Shape(): Geometry
      reads this, l2p
    {
      Geometry(pagesPerBlock, l2p[..])
    }

    ghost function Cached(): Cache
      requires Valid()
      reads this, pageBuf
    {
      Cache(pageBuf[..], pageBufLpn)
    }

    constructor (capacity: Word, pagesPerBlock: nat)
      ensures Valid() && fresh(pageBuf) && pageBufLpn == INVALID
      ensures this.capacity == capacity && this.pagesPerBlock == pagesPerBlock
    {
      this.capacity, this.pagesPerBlock := capacity, pagesPerBlock;
      regionToPpa := new Word[0];
      l2p := new Word[0];
      pageBuf := new byte[8192];
      pageBufLpn := INVALID;
    }

    /** The part of rk_ftl_map_recovery that exists: one entry per region, none of
        them known yet. */
    method MapRecovery()
      modifies `regionToPpa
      ensures fresh(regionToPpa) && regionToPpa.Length == NumRegions(capacity)
      ensures forall r :: 0 <= r < regionToPpa.Length ==> regionToPpa[r] == INVALID
    {
      regionToPpa := new Word[NumRegions(capacity)](_ => INVALID);
    }

    /** rk_ftl_read_page into the page buffer. */
    method ReadPage(media: Media, phys: nat) returns (ok: bool)
      requires Valid()
      modifies pageBuf
      ensures ok == media(phys).Good?
      ensures pageBuf[..] ==
                match media(phys)
                case Good(data) => data
                case Failed(leaves) => leaves(old(pageBuf[..]))
    {
      match media(phys) {
        case Good(data) =>
          Fill(pageBuf, data);
          return true;
        case Failed(leaves) =>
          Fill(pageBuf, leaves(pageBuf[..]));
          return false;
      }
    }

    /** rk_ftl_readsect. */
    method ReadSect(media: Media, block: nat, buf: array<byte>) returns (ok: bool)
      requires Mapped() && buf != pageBuf && buf.Length == 512
      modifies `pageBufLpn, pageBuf, buf
      ensures ReadSector(Shape(), media, old(Cached()), block)
           == (Cached(), if ok then Some(buf[..]) else None)
      ensures !ok ==> buf[..] == old(buf[..])
      ensures Shape() == old(Shape())
    {
      var lpn := Lpn(block);
      var sec := block % 16;
      if lpn >= capacity {
        Fill(buf, Zeros(512));
        return true;
      }
      if pageBufLpn != lpn {
        var ppa := l2p[lpn];
        if ppa == INVALID {
          Fill(pageBuf, Zeros(8192));
        } else {
          var good := ReadPage(media, Linear(pagesPerBlock, ppa));
          if !good {
            return false;
          }
        }
        pageBufLpn := lpn;
      }
      Fill(buf, pageBuf[512 * sec..512 * sec + 512]);
      return true;
    }

    /** rk_ftl_expand_l2p: the flat map equals the two-level lookup, for any region
        table and any capacity. */
    method ExpandL2p(media: Media)
      requires Valid() && regionToPpa.Length == NumRegions(capacity)
      modifies this, pageBuf
      ensures Mapped() && fresh(l2p) && pageBufLpn == INVALID && pageBuf == old(pageBuf)
      ensures capacity == old(capacity) && pagesPerBlock == old(pagesPerBlock)
      ensures forall n :: 0 <= n < capacity ==>
        l2p[n] == TwoLevel(old(regionToPpa[..]), pagesPerBlock, media, n)
    {
      ghost var regions := regionToPpa[..];
      l2p := new Word[capacity](_ => INVALID);
      for region := 0 to regionToPpa.Length
        invariant Mapped() && fresh(l2p) && pageBuf == old(pageBuf)
        invariant regionToPpa == old(regionToPpa) && regionToPpa[..] == regions
        invariant capacity == old(capacity) && pagesPerBlock == old(pagesPerBlock)
        invariant forall n :: 0 <= n < capacity ==>
          l2p[n] == if n < 2048 * region then TwoLevel(regions, pagesPerBlock, media, n) else INVALID
      {
        var ppa := regionToPpa[region];
        if ppa == INVALID {
          continue;
        }
        var good := ReadPage(media, Linear(pagesPerBlock, ppa));
        if !good {
          continue;
        }
        CopyRegion(region);
      }
      pageBufLpn := INVALID;
    }

    /** The inner loop: the entries of the map page in the buffer. */
    method CopyRegion(region: nat)
      requires Mapped() && 2048 * region < capacity
      requires forall n :: 2048 * region <= n < capacity ==> l2p[n] == INVALID
      modifies l2p
      ensures forall n :: 0 <= n < capacity ==>
        l2p[n] == if n / 2048 == region then MapWord(pageBuf[..], n % 2048) else old(l2p[n])
    {
      var base := 2048 * region;
      var n := if capacity - base < 2048 then capacity - base else 2048;
      for i := 0 to n
        invariant forall k :: 0 <= k < capacity ==>
          l2p[k] == if base <= k < base + i then MapWord(pageBuf[..], k - base) else old(l2p[k])
      {
        var entry := MapWord(pageBuf[..], i);
        if entry != INVALID {
          l2p[base + i] := entry;
        }
      }
    }
  }
}
