/** From the scanned map to the logical image: the map file that tools/l2p-scan.py
    saves and the reconstruction in tools/l2p-extract.py. */
module L2pImage {
  import opened Wrappers
  import opened Bytes
  import opened L2pScan

  type Int32 = x: int | -0x8000_0000 <= x < 0x8000_0000

  type Page = p: seq<byte> | |p| == 8192 witness Zeros(8192)

  /** os.pread of one page: at most 8192 bytes, fewer past the end of the device. */
  type Media = nat -> seq<byte>

  datatype Error = IndexError

  // ----------------------------------------------------------------- map array

  /** arr is the flat form of the map: one entry up to the greatest logical page,
      -1 where nothing was seen. */
  ghost predicate Flat(m: L2p, arr: seq<int>) {
    && (forall l :: l in m ==> l < |arr|)
    && (forall l :: 0 <= l < |arr| ==> arr[l] == if l in m then m[l].page else -1)
    && (m != map[] ==> |arr| - 1 in m)
  }

  method MaxKey(m: L2p) returns (hi: Word)
    requires m != map[]
    ensures hi in m && forall l :: l in m ==> l <= hi
  {
    hi :| hi in m;
    var rest := m.Keys;
    while rest != {}
      invariant rest <= m.Keys && hi in m
      invariant forall l :: l in m && l !in rest ==> l <= hi
      decreases rest
    {
      var l :| l in rest;
      if l > hi {
        hi := l;
      }
      rest := rest - {l};
    }
  }

  /** The array that l2p-scan saves, filled in place in any key order. */
  method MapArray(m: L2p) returns (arr: array<int>)
    requires m != map[]
    ensures Flat(m, arr[..])
  {
    var hi := MaxKey(m);
    arr := new int[hi + 1](_ => -1);
    var rest := m.Keys;
    while rest != {}
      invariant rest <= m.Keys
      invariant forall l :: 0 <= l < arr.Length ==>
        arr[l] == if l in m && l !in rest then m[l].page else -1
      decreases rest
    {
      var l :| l in rest;
      arr[l] := m[l].page;
      rest := rest - {l};
    }
  }

  // ------------------------------------------------------------------ map file

  /** array('i').tobytes: little-endian two's complement. */
  function ToBytes(s: seq<Int32>): (b: seq<byte>)
    ensures |b| == 4 * |s|
  {
    if s == [] then [] else Pack32(if s[0] < 0 then s[0] as int + 0x1_0000_0000 else s[0] as int) + ToBytes(s[1..])
  }

  /** array('i').frombytes, which wants whole entries. */
  function FromBytes(b: seq<byte>): (s: seq<Int32>)
    requires |b| % 4 == 0
  {
    if b == [] then []
    else
      var w := Unpack32(b[..4]);
      [if w >= 0x8000_0000 then w - 0x1_0000_0000 else w] + FromBytes(b[4..])
  }

  /** Saved by one tool and loaded by the other. */
  function Reloaded(s: seq<Int32>): seq<Int32> {
    var b := ToBytes(s);
    FourTimes(|s|);
    FromBytes(b)
  }

  lemma FourTimes(n: nat)
    ensures 4 * n % 4 == 0
  {
  }

  lemma {:induction false} FileRoundTrip(s: seq<Int32>)
    ensures Reloaded(s) == s
  {
    if s != [] {
      var w := if s[0] < 0 then s[0] as int + 0x1_0000_0000 else s[0] as int;
      Unpack32Pack32(w);
      var b := ToBytes(s);
      assert b[..4] == Pack32(w);
      assert b[4..] == ToBytes(s[1..]);
      FileRoundTrip(s[1..]);
    }
  }

  /** Entry i stands at byte 4 i, negative ones in two's complement. */
  lemma {:induction false} FileLayout(s: seq<Int32>, i: nat)
    requires i < |s|
    ensures ToBytes(s)[4 * i..4 * i + 4] == Pack32(if s[i] < 0 then s[i] as int + 0x1_0000_0000 else s[i] as int)
  {
    var w := Pack32(if s[0] < 0 then s[0] as int + 0x1_0000_0000 else s[0] as int);
    var rest := ToBytes(s[1..]);
    assert ToBytes(s) == w + rest;
    if i == 0 {
      assert (w + rest)[0..4] == w;
    } else {
      FileLayout(s[1..], i - 1);
      assert (w + rest)[4 * i..4 * i + 4] == rest[4 * (i - 1)..4 * (i - 1) + 4];
    }
  }

  // ---------------------------------------------------------------- extraction

  /** m[i] with Python's negative indices. */
  function Index(m: seq<int>, i: int): Option<int> {
    if 0 <= i < |m| then Some(m[i])
    else if -|m| <= i < 0 then Some(m[|m| + i])
    else None
  }

  /** What was read, filled up with zeros to a page. */
  function Padded(d: seq<byte>): Page {
    if |d| <= 8192 then d + Zeros(8192 - |d|) else d[..8192]
  }

  /** The data written for one logical page. */
  function LogicalPage(m: seq<int>, media: Media, lpn: int): Option<Page> {
    if lpn >= |m| then Some(Zeros(8192))
    else
      match Index(m, lpn)
      case None => None
      case Some(phys) => Some(if phys < 0 then Zeros(8192) else Padded(media(phys)))
  }

  /** Short reads are filled up behind the data; indices below zero count from the end
      of the map. */
  lemma PageLaws(m: seq<int>, media: Media, d: seq<byte>, k: nat)
    requires k < 8192
    ensures Padded(d)[k] == if k < |d| then d[k] else 0
    ensures 0 < k <= |m| ==> LogicalPage(m, media, 0 - k as int) == LogicalPage(m, media, |m| - k)
  {
  }

  predicate Hole(m: seq<int>, lpn: int) {
    lpn >= |m| || (Index(m, lpn).Some? && Index(m, lpn).value < 0)
  }

  /** The body of the extraction loop. */
  method ReadLogical(m: seq<int>, media: Media, lpn: int) returns (page: Option<Page>, hole: bool)
    ensures page == LogicalPage(m, media, lpn)
    ensures hole <==> Hole(m, lpn)
  {
    var phys := -1;
    if lpn < |m| {
      var v := Index(m, lpn);
      if v.None? {
        return None, false;
      }
      phys := v.value;
    }
    if phys < 0 {
      return Some(Zeros(8192)), true;
    }
    var d := media(phys);
    var p: Page := if |d| == 8192 then d else (d + Zeros(8192))[..8192];
    assert p == Padded(d);
    return Some(p), false;
  }

  /** How many of the n logical pages from `start` on have no physical page. */
  function Holes(m: seq<int>, start: int, n: nat): nat {
    if n == 0 then 0 else Holes(m, start, n - 1) + if Hole(m, start + n - 1) then 1 else 0
  }

  lemma {:induction false} HolesAreCounted(m: seq<int>, start: int, n: nat)
    ensures Holes(m, start, n) == |set l | start <= l < start + n && Hole(m, l)|
    decreases n
  {
    if n > 0 {
      HolesAreCounted(m, start, n - 1);
      var last := start + n - 1;
      var h := set l | start <= l < last && Hole(m, l);
      var g := set l | start <= l < start + n && Hole(m, l);
      assert last !in h;
      if Hole(m, last) {
        assert g == h + {last};
      } else {
        assert g == h;
      }
    }
  }

  /** tools/l2p-extract.py: the image, page after page; an index below the start of
      the map is an IndexError. */
  method Extract(m: seq<int>, media: Media, start: int, count: int)
    returns (r: Result<seq<byte>, Error>, holes: nat)
    ensures var n := if count == 0 then |m| - start else count;
            && (r.Ok? <==> n <= 0 || start >= -|m|)
            && (r.Ok? ==> |r.value| == 8192 * if n <= 0 then 0 else n)
            && (r.Ok? ==> forall k :: 0 <= k < n ==>
                  Some(r.value[8192 * k..8192 * k + 8192]) == LogicalPage(m, media, start + k))
            && (r.Ok? ==> holes == Holes(m, start, if n <= 0 then 0 else n))
  {
    var n := if count == 0 then |m| - start else count;
    var out: seq<byte> := [];
    holes := 0;
    var lpn := start;
    while lpn < start + n
      invariant start <= lpn && (if n <= 0 then lpn == start else lpn <= start + n)
      invariant holes == Holes(m, start, lpn - start)
      invariant lpn > start ==> start >= -|m|
      invariant |out| == 8192 * (lpn - start)
      invariant forall k :: 0 <= k < lpn - start ==>
        Some(out[8192 * k..8192 * k + 8192]) == LogicalPage(m, media, start + k)
      decreases start + n - lpn
    {
      var page, hole := ReadLogical(m, media, lpn);
      if page.None? {
        return Err(IndexError), holes;
      }
      holes := holes + if hole then 1 else 0;
      ghost var before := out;
      out := out + page.value;
      AppendKeeps(before, page.value, lpn - start);
      lpn := lpn + 1;
    }
    return Ok(out), holes;
  }

  lemma AppendKeeps(out: seq<byte>, page: Page, n: nat)
    requires |out| == 8192 * n
    ensures (out + page)[8192 * n..8192 * n + 8192] == page
    ensures forall k :: 0 <= k < n ==>
              (out + page)[8192 * k..8192 * k + 8192] == out[8192 * k..8192 * k + 8192]
  {
  }

  // ------------------------------------------------------------ the whole chain

  /** Scan, save, load and extract: in the image of the logical pages from `start`
      on, each page holds the data of the newest physical page scanned for it, and
      zeros if none was seen. */
  lemma ImageIsNewest(items: seq<Item>, arr: seq<Int32>, media: Media, lpn: Word, base: Word)
    returns (w: int)
    requires Flat(MapOf(items), arr) && InWindow(items, lpn, base)
    ensures Seen(items, lpn) ==>
              && Wins(items, lpn, base, w)
              && LogicalPage(Reloaded(arr), media, lpn) == Some(Padded(media(items[w].page)))
    ensures !Seen(items, lpn) ==>
              LogicalPage(Reloaded(arr), media, lpn) == Some(Zeros(8192))
  {
    w := NewestWins(items, lpn, base);
    FileRoundTrip(arr);
  }

  /** On the 8 GiB default the two halves are mixed up: every page that is extracted
      is the data of a page w in the upper half, chosen for the metadata that stands
      2^19 pages in front of it. */
  lemma WrongHalfExtracted(dev: Device, size: Word, n: nat, arr: seq<Int32>, media: Media, lpn: Word)
    returns (w: nat)
    requires size < 0x10_0000 && n == PageCount(size)
    requires Flat(MapOf(Items(dev, n)), arr) && lpn in MapOf(Items(dev, n))
    ensures 0x8_0000 <= w < 0x10_0000 && Names(dev, w - 0x8_0000, lpn)
    ensures LogicalPage(Reloaded(arr), media, lpn) == Some(Padded(media(w)))
  {
    PageCountCases(size);
    var m := MapOf(Items(dev, n));
    w := m[lpn].page;
    AliasesReplace(dev, n, lpn);
    NamedEarlier(dev, lpn, m[lpn]);
    FileRoundTrip(arr);
    FlatPage(m, arr, media, lpn);
  }

  lemma NamedEarlier(dev: Device, lpn: Word, e: Entry)
    requires Recorded(dev, lpn, e) && 0x8_0000 <= e.page < 0x10_0000
    ensures Names(dev, e.page - 0x8_0000, lpn)
  {
    StartWraps(e.page - 0x8_0000);
    OwnOffset(e.page - 0x8_0000);
  }

  lemma FlatPage(m: L2p, arr: seq<int>, media: Media, lpn: Word)
    requires Flat(m, arr) && lpn in m
    ensures LogicalPage(arr, media, lpn) == Some(Padded(media(m[lpn].page)))
  {
  }

  /** The metadata at the page's own offset name the logical page. */
  ghost predicate Names(dev: Device, page: int, lpn: Word) {
    page >= 0 && var x := Decode(page, dev(page * 8192)); x.Data? && x.lpn == lpn
  }

  lemma OwnOffset(page: nat)
    requires page < 0x8_0000
    ensures Start(page) == page * 8192
  {
  }
}
