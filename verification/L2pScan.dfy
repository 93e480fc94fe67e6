/** Rebuilding the logical-to-physical map from the out-of-band metadata of every
    physical page: tools/l2p-scan.py. */
module L2pScan {
  import opened Wrappers
  import opened Bytes

  type Word = x: nat | x < 0x1_0000_0000

  /** The 32 out-of-band bytes the scan looks at. */
  type Oob = o: seq<byte> | |o| == 32 witness Zeros(32)

  /** What MEMREADOOB answers for a 32-bit start offset; None is an OSError. */
  type Device = nat -> Option<Oob>

  // ------------------------------------------------------------ definitions

  /** Vendor system word s, which the driver stores rotated by one position. */
  function SysWord(o: Oob, s: nat): Word
    requires s < 8
  {
    var p := if s == 0 then 7 else s - 1;
    Unpack32(o[4 * p..4 * p + 4])
  }

  /** What the scan makes of one page: a data page with its metadata, a page with
      another magic, or a failed read. */
  datatype Item =
    | Data(page: nat, version: Word, lpn: Word)
    | Other(page: nat, magic: nat)
    | Failed(page: nat)

  function Decode(page: nat, r: Option<Oob>): Item {
    match r
    case None => Failed(page)
    case Some(o) =>
      var magic := SysWord(o, 0) % 0x1_0000;
      if magic == 0xF095 then Data(page, SysWord(o, 1), SysWord(o, 2)) else Other(page, magic)
  }

  /** The comparison of wrapping version counters. */
  predicate Newer(a: Word, b: Word) {
    (a as int - b as int) % 0x1_0000_0000 < 0x8000_0001
  }

  datatype Entry = Entry(page: nat, version: Word)

  type L2p = map<Word, Entry>

  function Insert(m: L2p, x: Item): L2p {
    if x.Data? && (x.lpn !in m || Newer(x.version, m[x.lpn].version))
    then m[x.lpn := Entry(x.page, x.version)]
    else m
  }

  /** The map after scanning a sequence of pages in the given order. */
  function MapOf(items: seq<Item>): L2p {
    if items == [] then map[] else Insert(MapOf(items[..|items| - 1]), items[|items| - 1])
  }

  /** The start offset of a page, as stored in a 32-bit field. */
  function Start(page: nat): nat {
    page * 8192 % 0x1_0000_0000
  }

  function PageItem(dev: Device, page: nat): Item {
    Decode(page, dev(Start(page)))
  }

  function Items(dev: Device, npages: nat): (items: seq<Item>)
    ensures |items| == npages
    ensures forall p :: 0 <= p < npages ==> items[p] == PageItem(dev, p)
  {
    seq(npages, (p: nat) => PageItem(dev, p))
  }

  /** The number of pages to scan, from the 32-bit size that MEMGETINFO reports; a
      size below 1 MiB means it wrapped and stands for 8 GiB. */
  function PageCount(size: Word): nat {
    (if size < 0x10_0000 then 0x2_0000_0000 else size as int) / 8192
  }

  function CountData(items: seq<Item>): nat {
    if items == [] then 0
    else CountData(items[..|items| - 1]) + if items[|items| - 1].Data? then 1 else 0
  }

  function CountFailed(items: seq<Item>): nat {
    if items == [] then 0
    else CountFailed(items[..|items| - 1]) + if items[|items| - 1].Failed? then 1 else 0
  }

  // ----------------------------------------------------------- implementation

  method Scan(dev: Device, npages: nat) returns (lpn2phys: L2p, data: nat, errors: nat)
    ensures lpn2phys == MapOf(Items(dev, npages))
    ensures data == CountData(Items(dev, npages))
    ensures errors == CountFailed(Items(dev, npages))
  {
    lpn2phys, data, errors := map[], 0, 0;
    ghost var items := Items(dev, npages);
    for pg := 0 to npages
      invariant lpn2phys == MapOf(items[..pg])
      invariant data == CountData(items[..pg])
      invariant errors == CountFailed(items[..pg])
    {
      assert items[..pg + 1][..pg] == items[..pg];
      var r := dev(pg * 8192 % 0x1_0000_0000);
      if r.None? {
        errors := errors + 1;
        continue;
      }
      var o := r.value;
      var magic := SysWord(o, 0) % 0x1_0000;
      if magic == 0xF095 {
        data := data + 1;
        var version, lpn := SysWord(o, 1), SysWord(o, 2);
        if lpn !in lpn2phys || Newer(version, lpn2phys[lpn].version) {
          lpn2phys := lpn2phys[lpn := Entry(pg, version)];
        }
      }
    }
    assert items[..npages] == items;
  }

  // ------------------------------------------------- where the metadata stands

  lemma LowHalf(w: seq<byte>)
    requires |w| == 4
    ensures Unpack32(w) % 0x1_0000 == 0xF095 <==> w[0] == 0x95 && w[1] == 0xF0
  {
    assert w[..2] == [w[0], w[1]];
  }

  /** A page is a data page exactly when bytes 28 and 29 of its metadata are 95 F0; its
      version is then the word at byte 0 and its logical page the word at byte 4. */
  lemma MetadataLayout(page: nat, o: Oob)
    ensures var x := Decode(page, Some(o));
            && (x.Data? <==> o[28] == 0x95 && o[29] == 0xF0)
            && (x.Data? ==> x == Data(page, Unpack32(o[0..4]), Unpack32(o[4..8])))
            && !x.Failed?
    ensures Decode(page, None) == Failed(page)
  {
    LowHalf(o[28..32]);
  }

  /** The counters are numbers of pages. */
  lemma {:induction false} DataArePages(items: seq<Item>)
    ensures CountData(items) == |set k | 0 <= k < |items| && items[k].Data?|
  {
    if items != [] {
      var n := |items| - 1;
      DataArePages(items[..n]);
      var d := set k | 0 <= k < n && items[..n][k].Data?;
      assert (set k | 0 <= k < |items| && items[k].Data?) == if items[n].Data? then d + {n} else d;
    }
  }

  lemma {:induction false} FailedArePages(items: seq<Item>)
    ensures CountFailed(items) == |set k | 0 <= k < |items| && items[k].Failed?|
  {
    if items != [] {
      var n := |items| - 1;
      FailedArePages(items[..n]);
      var f := set k | 0 <= k < n && items[..n][k].Failed?;
      assert (set k | 0 <= k < |items| && items[k].Failed?) == if items[n].Failed? then f + {n} else f;
    }
  }

  // ------------------------------------------------------ the version ordering

  /** Version v counted from `base`, as if it had not wrapped. */
  function Unwrapped(v: Word, base: Word): nat {
    (v as int - base as int) % 0x1_0000_0000
  }

  /** Of any two versions one is newer; each is newer than the other exactly when
      they are equal or 2^31 apart. */
  lemma NewerIsTotal(a: Word, b: Word)
    ensures Newer(a, b) || Newer(b, a)
    ensures Newer(a, b) && Newer(b, a)
       <==> a == b || a as int - b as int == 0x8000_0000 || b as int - a as int == 0x8000_0000
  {
  }

  /** Inside a window of 2^31 versions the comparison is the order of the
      unwrapped versions. */
  lemma NewerInWindow(a: Word, b: Word, base: Word)
    requires Unwrapped(a, base) < 0x8000_0000 && Unwrapped(b, base) < 0x8000_0000
    ensures Newer(a, b) <==> Unwrapped(a, base) >= Unwrapped(b, base)
  {
  }

  lemma UnwrappedInjective(a: Word, b: Word, base: Word)
    requires Unwrapped(a, base) == Unwrapped(b, base)
    ensures a == b
  {
  }

  // --------------------------------------------------------------- newest wins

  predicate IsFor(x: Item, lpn: Word) {
    x.Data? && x.lpn == lpn
  }

  ghost predicate Seen(items: seq<Item>, lpn: Word) {
    exists k :: 0 <= k < |items| && IsFor(items[k], lpn)
  }

  /** All versions seen for the logical page lie in a circular window. */
  ghost predicate InWindow(items: seq<Item>, lpn: Word, base: Word) {
    forall k :: 0 <= k < |items| && IsFor(items[k], lpn) ==>
      Unwrapped(items[k].version, base) < 0x8000_0000
  }

  /** x is not newer than w, and where it is as new it was scanned no later. */
  predicate Beaten(x: Item, k: int, w: Item, i: int, base: Word)
    requires x.Data? && w.Data?
  {
    var u, v := Unwrapped(x.version, base), Unwrapped(w.version, base);
    u < v || (u == v && k <= i)
  }

  /** Item w has the greatest unwrapped version, and is the last one to have it. */
  ghost predicate Wins(items: seq<Item>, lpn: Word, base: Word, w: int) {
    && 0 <= w < |items| && IsFor(items[w], lpn)
    && forall k :: 0 <= k < |items| && IsFor(items[k], lpn) ==>
         Beaten(items[k], k, items[w], w, base)
  }

  ghost predicate Named(m: L2p, lpn: Word, x: Item)
    requires lpn in m
  {
    x.Data? && m[lpn] == Entry(x.page, x.version)
  }

  /** The map has an entry exactly for the logical pages that were seen; it names
      the last scanned page among those with the greatest unwrapped version. */
  lemma {:induction false} NewestWins(items: seq<Item>, lpn: Word, base: Word) returns (w: int)
    requires InWindow(items, lpn, base)
    ensures lpn in MapOf(items) <==> Seen(items, lpn)
    ensures lpn in MapOf(items) ==>
              Wins(items, lpn, base, w) && Named(MapOf(items), lpn, items[w])
  {
    w := 0;
    if items != [] {
      var n := |items| - 1;
      var before, x := items[..n], items[n];
      assert forall k :: 0 <= k < n ==> before[k] == items[k];
      w := NewestWins(before, lpn, base);
      if IsFor(x, lpn) {
        if lpn in MapOf(before) {
          NewerInWindow(x.version, before[w].version, base);
        }
        if lpn !in MapOf(before) || Newer(x.version, before[w].version) {
          w := n;
        }
      }
    }
  }

  ghost predicate DistinctVersions(items: seq<Item>, lpn: Word) {
    forall i, k :: 0 <= i < k < |items| && IsFor(items[i], lpn) && IsFor(items[k], lpn) ==>
      items[i].version != items[k].version
  }

  lemma SameMembers(a: seq<Item>, b: seq<Item>, x: Item) returns (k: nat)
    requires multiset(a) == multiset(b) && x in a
    ensures k < |b| && b[k] == x
  {
    assert x in multiset(a);
    assert x in b;
    k :| 0 <= k < |b| && b[k] == x;
  }

  lemma SeenAlike(a: seq<Item>, b: seq<Item>, lpn: Word)
    requires multiset(a) == multiset(b) && Seen(a, lpn)
    ensures Seen(b, lpn)
  {
    var k :| 0 <= k < |a| && IsFor(a[k], lpn);
    var i := SameMembers(a, b, a[k]);
  }

  lemma SameWinner(a: seq<Item>, b: seq<Item>, lpn: Word, base: Word, v: int, w: int)
    requires multiset(a) == multiset(b) && DistinctVersions(a, lpn)
    requires Wins(a, lpn, base, v) && Wins(b, lpn, base, w)
    ensures a[v] == b[w]
  {
    var i := SameMembers(a, b, a[v]);
    var k := SameMembers(b, a, b[w]);
    assert Beaten(b[i], i, b[w], w, base) && Beaten(a[k], k, a[v], v, base);
    UnwrappedInjective(a[v].version, a[k].version, base);
  }

  /** With distinct versions the winner does not depend on the scan order. */
  lemma OrderDoesNotMatter(a: seq<Item>, b: seq<Item>, lpn: Word, base: Word)
    requires multiset(a) == multiset(b)
    requires InWindow(a, lpn, base) && DistinctVersions(a, lpn)
    ensures lpn in MapOf(a) <==> lpn in MapOf(b)
    ensures lpn in MapOf(a) ==> MapOf(a)[lpn] == MapOf(b)[lpn]
  {
    assert InWindow(b, lpn, base) by {
      forall k | 0 <= k < |b| && IsFor(b[k], lpn)
        ensures Unwrapped(b[k].version, base) < 0x8000_0000
      {
        var i := SameMembers(b, a, b[k]);
      }
    }
    var v := NewestWins(a, lpn, base);
    var w := NewestWins(b, lpn, base);
    if Seen(a, lpn) {
      SeenAlike(a, b, lpn);
      SameWinner(a, b, lpn, base, v, w);
    } else if Seen(b, lpn) {
      SeenAlike(b, a, lpn);
    }
  }

  // ------------------------------------------------------- outside the window

  /** Without a window the comparison has cycles, and then the scan order decides:
      the same three pages in two orders leave different entries. */
  lemma CycleDependsOnOrder(lpn: Word)
    ensures var x, y, z := Data(0, 0, lpn), Data(1, 0x6000_0000, lpn), Data(2, 0xC000_0000, lpn);
            && multiset([x, y, z]) == multiset([y, z, x])
            && MapOf([x, y, z]) == map[lpn := Entry(2, 0xC000_0000)]
            && MapOf([y, z, x]) == map[lpn := Entry(0, 0)]
  {
    var x, y, z := Data(0, 0, lpn), Data(1, 0x6000_0000, lpn), Data(2, 0xC000_0000, lpn);
    ThreeScanned(x, y, z, lpn);
    ThreeScanned(y, z, x, lpn);
  }

  lemma ThreeScanned(x: Item, y: Item, z: Item, lpn: Word)
    requires IsFor(x, lpn) && IsFor(y, lpn) && IsFor(z, lpn)
    requires Newer(y.version, x.version) && Newer(z.version, y.version)
    ensures MapOf([x, y, z]) == map[lpn := Entry(z.page, z.version)]
  {
    assert [x][..0] == [] && [x, y][..1] == [x] && [x, y, z][..2] == [x, y];
    assert MapOf([x]) == map[lpn := Entry(x.page, x.version)];
    assert MapOf([x, y]) == map[lpn := Entry(y.page, y.version)];
  }

  /** The entry of a logical page comes from one of its scanned pages. */
  lemma {:induction false} EntryIsScanned(items: seq<Item>, lpn: Word) returns (x: Item)
    ensures lpn in MapOf(items) <==> Seen(items, lpn)
    ensures lpn in MapOf(items) ==> x in items && IsFor(x, lpn) && Named(MapOf(items), lpn, x)
  {
    x := Failed(0);
    if items != [] {
      var n := |items| - 1;
      assert forall k :: 0 <= k < n ==> items[..n][k] == items[k];
      x := EntryIsScanned(items[..n], lpn);
      var last := items[n];
      if IsFor(last, lpn) && (lpn !in MapOf(items[..n]) || Newer(last.version, MapOf(items[..n])[lpn].version)) {
        x := last;
      }
    }
  }

  /** No other scanned version of the logical page is newer than that of x. */
  ghost predicate Unbeaten(items: seq<Item>, lpn: Word, x: Item) {
    IsFor(x, lpn) && forall y :: y in items && y != x && IsFor(y, lpn) ==> !Newer(y.version, x.version)
  }

  lemma {:induction false} UnbeatenStays(items: seq<Item>, lpn: Word, x: Item)
    requires Unbeaten(items, lpn, x) && x in items
    ensures lpn in MapOf(items) && Named(MapOf(items), lpn, x)
  {
    var n := |items| - 1;
    var before, last := items[..n], items[n];
    assert items == before + [last];
    if last == x {
      var c := EntryIsScanned(before, lpn);
      if lpn in MapOf(before) && c != x {
        NewerIsTotal(x.version, c.version);
      }
    } else {
      UnbeatenStays(before, lpn, x);
    }
  }

  /** Every order of the same pages leaves the same entry. */
  ghost predicate OrderFree(items: seq<Item>, lpn: Word) {
    forall other: seq<Item> :: multiset(other) == multiset(items) ==>
      lpn in MapOf(other) && lpn in MapOf(items) && MapOf(other)[lpn] == MapOf(items)[lpn]
  }

  lemma MoveLast(items: seq<Item>, k: nat) returns (others: seq<Item>)
    requires k < |items|
    ensures multiset(others + [items[k]]) == multiset(items)
  {
    others := items[..k] + items[k + 1..];
    assert items == items[..k] + [items[k]] + items[k + 1..];
  }

  /** A page scanned last stays out of the map only if the entry beats it. */
  lemma LastLoses(others: seq<Item>, y: Item, lpn: Word, x: Item)
    requires IsFor(x, lpn) && IsFor(y, lpn) && x != y
    requires lpn in MapOf(others + [y]) && Named(MapOf(others + [y]), lpn, x)
    ensures !Newer(y.version, x.version)
  {
    assert (others + [y])[..|others|] == others;
  }

  /** The scan order does not matter exactly when some page of the logical page is
      beaten by no other. */
  lemma OrderFreeIff(items: seq<Item>, lpn: Word)
    requires Seen(items, lpn)
    ensures OrderFree(items, lpn) <==> exists x :: x in items && Unbeaten(items, lpn, x)
  {
    if OrderFree(items, lpn) {
      var x := EntryIsScanned(items, lpn);
      forall y | y in items && y != x && IsFor(y, lpn)
        ensures !Newer(y.version, x.version)
      {
        var k :| 0 <= k < |items| && items[k] == y;
        var others := MoveLast(items, k);
        LastLoses(others, y, lpn, x);
      }
    }
    if x :| x in items && Unbeaten(items, lpn, x) {
      UnbeatenStays(items, lpn, x);
      forall other: seq<Item> | multiset(other) == multiset(items)
        ensures lpn in MapOf(other) && MapOf(other)[lpn] == MapOf(items)[lpn]
      {
        assert forall y :: y in other <==> y in multiset(other);
        UnbeatenStays(other, lpn, x);
      }
    }
  }

  // ---------------------------------------------------- the documented filter

  /** The version of an erased counter, which the documented scan leaves out. */
  const ERASED: Word := 0xFFFF_FFFF

  function Kept(items: seq<Item>): seq<Item> {
    if items == [] then []
    else
      var before, x := Kept(items[..|items| - 1]), items[|items| - 1];
      if x.Data? && x.version == ERASED then before else before + [x]
  }

  /** The map of docs/rknand-re/ftl-l2p-algorithm.md. */
  function Documented(items: seq<Item>): L2p {
    MapOf(Kept(items))
  }

  ghost predicate AgreeAt(m: L2p, d: L2p, lpn: Word) {
    (lpn in m <==> lpn in d) && (lpn in m ==> m[lpn] == d[lpn])
  }

  /** Both maps side by side: the documented one is never newer, is the same where the
      scan has an entry with another version, and has no entry with this one. */
  ghost predicate SideBySide(m: L2p, d: L2p, lpn: Word, base: Word) {
    && (lpn in m ==> Unwrapped(m[lpn].version, base) < 0x8000_0000)
    && (lpn in d ==> lpn in m && Unwrapped(d[lpn].version, base) <= Unwrapped(m[lpn].version, base))
    && (lpn in d ==> d[lpn].version != ERASED)
    && (lpn in m && m[lpn].version != ERASED ==> lpn in d && d[lpn] == m[lpn])
  }

  lemma InsertSideBySide(m: L2p, d: L2p, x: Item, lpn: Word, base: Word)
    requires SideBySide(m, d, lpn, base)
    requires IsFor(x, lpn) ==> Unwrapped(x.version, base) < 0x8000_0000
    ensures SideBySide(Insert(m, x), if x.Data? && x.version == ERASED then d else Insert(d, x), lpn, base)
  {
    if IsFor(x, lpn) {
      if lpn in m {
        NewerInWindow(x.version, m[lpn].version, base);
      }
      if lpn in d {
        NewerInWindow(x.version, d[lpn].version, base);
      }
    }
  }

  lemma {:induction false} DocumentedBeside(items: seq<Item>, lpn: Word, base: Word)
    requires InWindow(items, lpn, base)
    ensures SideBySide(MapOf(items), Documented(items), lpn, base)
  {
    if items != [] {
      var n := |items| - 1;
      var before, x := items[..n], items[n];
      assert forall k :: 0 <= k < n ==> before[k] == items[k];
      DocumentedBeside(before, lpn, base);
      InsertSideBySide(MapOf(before), Documented(before), x, lpn, base);
      assert (Kept(before) + [x])[..|Kept(before)|] == Kept(before);
    }
  }

  /** Some page of the logical page has the erased version, and none a newer one. */
  ghost predicate ErasedNewest(items: seq<Item>, lpn: Word, base: Word) {
    exists k :: 0 <= k < |items| && IsFor(items[k], lpn) && items[k].version == ERASED
      && NoneNewer(items, lpn, base)
  }

  ghost predicate NoneNewer(items: seq<Item>, lpn: Word, base: Word) {
    forall i :: 0 <= i < |items| && IsFor(items[i], lpn) ==>
      Unwrapped(items[i].version, base) <= Unwrapped(ERASED, base)
  }

  lemma ErasedNewestIff(items: seq<Item>, lpn: Word, base: Word)
    requires InWindow(items, lpn, base)
    ensures ErasedNewest(items, lpn, base) <==> lpn in MapOf(items) && MapOf(items)[lpn].version == ERASED
  {
    var w := NewestWins(items, lpn, base);
    if k :| 0 <= k < |items| && IsFor(items[k], lpn) && items[k].version == ERASED && NoneNewer(items, lpn, base) {
      assert Seen(items, lpn);
      assert Beaten(items[k], k, items[w], w, base);
      UnwrappedInjective(items[w].version, ERASED, base);
    }
    if lpn in MapOf(items) && MapOf(items)[lpn].version == ERASED {
      assert forall i :: 0 <= i < |items| && IsFor(items[i], lpn) ==> Beaten(items[i], i, items[w], w, base);
    }
  }

  /** The scan gives the documented map at a logical page exactly when the page's
      newest version is not the erased one. */
  lemma DocumentedIff(items: seq<Item>, lpn: Word, base: Word)
    requires InWindow(items, lpn, base)
    ensures AgreeAt(MapOf(items), Documented(items), lpn) <==> !ErasedNewest(items, lpn, base)
  {
    DocumentedBeside(items, lpn, base);
    ErasedNewestIff(items, lpn, base);
  }

  /** An erased version directly behind the newest real one: the scan takes its page,
      the documented scan does not. */
  lemma ErasedVersionTaken(lpn: Word)
    ensures var items := [Data(0, 0xFFFF_FFFE, lpn), Data(1, ERASED, lpn)];
            && MapOf(items) == map[lpn := Entry(1, ERASED)]
            && Documented(items) == map[lpn := Entry(0, 0xFFFF_FFFE)]
  {
    var x, y := Data(0, 0xFFFF_FFFE, lpn), Data(1, ERASED, lpn);
    assert [x][..0] == [] && [x, y][..1] == [x];
    assert MapOf([x]) == map[lpn := Entry(0, 0xFFFF_FFFE)];
    assert Kept([x]) == [] + [x] == [x] && Kept([x, y]) == [x];
  }

  // ----------------------------------------------------------- offset aliasing

  /** Each page is read at its own offset exactly when there are at most 2^19. */
  lemma OwnOffsetIff(npages: nat)
    ensures (forall p: nat :: p < npages ==> Start(p) == p * 8192) <==> npages <= 0x8_0000
  {
    if npages > 0x8_0000 {
      assert Start(0x8_0000) == 0;
    }
  }

  /** The device size never gives a count in between: either the offsets are exact
      or the scan takes the 8 GiB default of 2^20 pages. */
  lemma PageCountCases(size: Word)
    ensures size >= 0x10_0000 ==>
              PageCount(size) < 0x8_0000 && PageCount(size) * 8192 <= size < (PageCount(size) + 1) * 8192
    ensures size < 0x10_0000 ==> PageCount(size) == 0x10_0000
  {
  }

  /** The entry e for l is what the scan found on its page. */
  ghost predicate Recorded(dev: Device, l: Word, e: Entry) {
    PageItem(dev, e.page) == Data(e.page, e.version, l)
  }

  lemma WrapOnce(x: nat)
    ensures (x + 0x1_0000_0000) % 0x1_0000_0000 == x % 0x1_0000_0000
  {
  }

  lemma StartWraps(page: nat)
    ensures Start(page + 0x8_0000) == Start(page)
  {
    WrapOnce(page * 8192);
    assert (page + 0x8_0000) * 8192 == page * 8192 + 0x1_0000_0000;
  }

  /** A page 2^19 later has the same metadata, and equal versions count as newer. */
  lemma AliasIsNewer(dev: Device, p: nat, l: Word, e: Entry)
    requires Recorded(dev, l, e) && p == e.page + 0x8_0000
    ensures PageItem(dev, p) == Data(p, e.version, l) && Newer(e.version, e.version)
  {
    StartWraps(e.page);
  }

  /** After n pages the entry for l is at most 2^19 pages old. */
  ghost predicate Recent(dev: Device, n: nat, l: Word, e: Entry) {
    e.page < n <= e.page + 0x8_0000 && Recorded(dev, l, e)
  }

  lemma RecentStep(dev: Device, p: nat, m: L2p, l: Word)
    requires l in m ==> Recent(dev, p, l, m[l])
    ensures var m' := Insert(m, PageItem(dev, p));
            l in m' ==> Recent(dev, p + 1, l, m'[l])
  {
    if l in m && p == m[l].page + 0x8_0000 {
      AliasIsNewer(dev, p, l, m[l]);
    }
  }

  /** On a device that answers each offset always the same way this holds of every
      entry, whatever the versions are. */
  lemma {:induction false} AliasesReplace(dev: Device, n: nat, l: Word)
    requires l in MapOf(Items(dev, n))
    ensures Recent(dev, n, l, MapOf(Items(dev, n))[l])
  {
    var p := n - 1;
    assert Items(dev, n)[..p] == Items(dev, p);
    if l in MapOf(Items(dev, p)) {
      AliasesReplace(dev, p, l);
    }
    RecentStep(dev, p, MapOf(Items(dev, p)), l);
  }

  /** On the 2^20-page default every physical page in the map is in the upper half
      of the device. */
  lemma UpperHalfOnly(dev: Device, size: Word)
    requires size < 0x10_0000
    ensures forall l :: l in MapOf(Items(dev, PageCount(size))) ==>
              MapOf(Items(dev, PageCount(size)))[l].page >= 0x8_0000
  {
    forall l | l in MapOf(Items(dev, PageCount(size)))
      ensures MapOf(Items(dev, PageCount(size)))[l].page >= 0x8_0000
    {
      AliasesReplace(dev, PageCount(size), l);
    }
  }
}
