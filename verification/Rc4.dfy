/** The RC4 stream cipher and its blockwise use: tools/mk-idblock.py. */
module Rc4 {
  import opened Bytes

  type State = s: seq<byte> | |s| == 256 witness seq(256, i => 0)

  function Identity(): (s: State)
    ensures forall i :: 0 <= i < 256 ==> s[i] == i
  {
    seq(256, i requires 0 <= i < 256 => i)
  }

  function Swap(s: State, i: byte, j: byte): State {
    s[i := s[j]][j := s[i]]
  }

  /** Addition modulo 256. */
  function Add(a: byte, b: byte): byte {
    (a as int + b as int) % 256
  }

  // ------------------------------------------------------------ definitions

  datatype Schedule = Schedule(s: State, j: byte)

  /** The key schedule after its first n rounds. */
  function KeySchedule(key: seq<byte>, n: nat): Schedule
    requires key != [] && n <= 256
  {
    if n == 0 then Schedule(Identity(), 0)
    else
      var p, i := KeySchedule(key, n - 1), n - 1;
      var j := Add(Add(p.j, p.s[i]), key[i % |key|]);
      Schedule(Swap(p.s, i, j), j)
  }

  /** The table once every entry has had its round. */
  function FullSchedule(key: seq<byte>): State
    requires key != []
  {
    var rounds := |Identity()|;
    KeySchedule(key, rounds).s
  }

  datatype Generator = Generator(s: State, i: byte, j: byte) {

    function Next(): Generator {
      var i' := Add(i, 1);
      var j' := Add(j, s[i']);
      Generator(Swap(s, i', j'), i', j')
    }

    function Output(): byte {
      s[Add(s[i], s[j])]
    }
  }

  /** The generator after n more output bytes. */
  function After(g: Generator, n: nat): Generator {
    if n == 0 then g else After(g, n - 1).Next()
  }

  function Start(key: seq<byte>): Generator
    requires key != []
  {
    Generator(FullSchedule(key), 0, 0)
  }

  /** Byte n of the key stream. */
  function KeyByte(key: seq<byte>, n: nat): byte
    requires key != []
  {
    After(Start(key), n + 1).Output()
  }

  /** What the cipher does to the byte at position n. */
  function Encipher(key: seq<byte>): (byte, nat) -> byte
    requires key != []
  {
    (b: byte, n: nat) => Xor(b, KeyByte(key, n))
  }

  function MapAt(data: seq<byte>, f: (byte, nat) -> byte): (out: seq<byte>)
    ensures |out| == |data|
    ensures forall n :: 0 <= n < |data| ==> out[n] == f(data[n], n)
  {
    seq<byte>(|data|, n requires 0 <= n < |data| => f(data[n], n))
  }

  function Crypt(data: seq<byte>, key: seq<byte>): seq<byte>
    requires key != []
  {
    MapAt(data, Encipher(key))
  }

  // ----------------------------------------------------------- implementation

  /** The key schedule, in place on the table. */
  method ScheduleKey(s: array<byte>, key: seq<byte>)
    requires s.Length == 256 && s[..] == Identity() && key != []
    modifies s
    ensures s[..] == FullSchedule(key)
  {
    var j: byte := 0;
    for i := 0 to s.Length
      invariant KeySchedule(key, i) == Schedule(s[..], j)
    {
      j := Add(Add(j, s[i]), key[i % |key|]);
      s[i], s[j] := s[j], s[i];
    }
  }

  /** One round of the generator, in place on the table, and one byte enciphered. */
  method NextByte(s: array<byte>, i: byte, j: byte, b: byte) returns (i': byte, j': byte, c: byte)
    requires s.Length == 256
    modifies s
    ensures Generator(s[..], i', j') == Generator(old(s[..]), i, j).Next()
    ensures c == Xor(b, Generator(old(s[..]), i, j).Next().Output())
  {
    i' := Add(i, 1);
    j' := Add(j, s[i']);
    s[i'], s[j'] := s[j'], s[i'];
    c := Xor(b, s[Add(s[i'], s[j'])]);
  }

  /** b with output n of a generator that starts as g added. */
  function Added(g: Generator, b: byte, n: nat): byte {
    Xor(b, After(g, n).Next().Output())
  }

  ghost predicate Adds(f: (byte, nat) -> byte, g: Generator) {
    forall b: byte, n: nat {:trigger Added(g, b, n)} :: f(b, n) == Added(g, b, n)
  }

  /** The round for byte n of the data. */
  method Round(s: array<byte>, i: byte, j: byte, b: byte,
               ghost n: nat, ghost g: Generator, ghost f: (byte, nat) -> byte)
    returns (i': byte, j': byte, c: byte)
    requires s.Length == 256 && Adds(f, g) && After(g, n) == Generator(s[..], i, j)
    modifies s
    ensures After(g, n + 1) == Generator(s[..], i', j') && c == f(b, n)
  {
    i', j', c := NextByte(s, i, j, b);
    assert c == Added(g, b, n);
  }

  method EncipherAll(s: array<byte>, data: seq<byte>, ghost f: (byte, nat) -> byte) returns (out: seq<byte>)
    requires s.Length == 256 && Adds(f, Generator(s[..], 0, 0))
    modifies s
    ensures out == MapAt(data, f)
  {
    out := [];
    ghost var g := Generator(s[..], 0, 0);
    var i: byte, j: byte, c: byte := 0, 0, 0;
    for n := 0 to |data|
      invariant After(g, n) == Generator(s[..], i, j)
      invariant |out| == n
      invariant forall m :: 0 <= m < n ==> out[m] == f(data[m], m)
    {
      i, j, c := Round(s, i, j, data[n], n, g, f);
      out := out + [c];
    }
  }

  lemma EncipherAdds(key: seq<byte>)
    requires key != []
    ensures Adds(Encipher(key), Start(key))
  {
  }

  /** tools/mk-idblock.py, rc4: the table is swapped in place and the output grows
      byte by byte. */
  method Rc4(data: seq<byte>, key: seq<byte>) returns (out: seq<byte>)
    requires key != []
    ensures out == Crypt(data, key)
  {
    var s := new byte[256](i requires 0 <= i < 256 => i);
    assert s[..] == Identity();
    ScheduleKey(s, key);
    EncipherAdds(key);
    out := EncipherAll(s, data, Encipher(key));
  }

  // ---------------------------------------------------------------- properties

  /** Every byte value occurs exactly once. */
  ghost predicate IsPermutation(s: State) {
    multiset(s) == multiset(Identity())
  }

  lemma SwapPermutes(s: State, i: byte, j: byte)
    requires IsPermutation(s)
    ensures IsPermutation(Swap(s, i, j))
  {
  }

  lemma {:induction false} SchedulePermutes(key: seq<byte>, n: nat)
    requires key != [] && n <= 256
    ensures IsPermutation(KeySchedule(key, n).s)
  {
    if n > 0 {
      SchedulePermutes(key, n - 1);
      var p := KeySchedule(key, n - 1);
      SwapPermutes(p.s, n - 1, KeySchedule(key, n).j);
    }
  }

  /** The table stays a permutation of 0..255 through the key schedule and through
      any amount of output. */
  lemma {:induction false} GeneratorPermutes(key: seq<byte>, n: nat)
    requires key != []
    ensures IsPermutation(After(Start(key), n).s)
  {
    if n == 0 {
      SchedulePermutes(key, |Identity()|);
    } else {
      GeneratorPermutes(key, n - 1);
      var g, h := After(Start(key), n - 1), After(Start(key), n);
      SwapPermutes(g.s, h.i, h.j);
    }
  }

  lemma PermutationHitsEach(s: State)
    requires IsPermutation(s)
    ensures forall v: byte :: v in s
  {
    forall v: byte
      ensures v in s
    {
      assert Identity()[v] == v;
      assert v in multiset(Identity());
      assert v in multiset(s);
    }
  }

  /** At every moment each value from 0 to 255 is somewhere in the table. */
  lemma GeneratorHasAll(key: seq<byte>, n: nat)
    requires key != []
    ensures forall v: byte :: v in After(Start(key), n).s
  {
    GeneratorPermutes(key, n);
    PermutationHitsEach(After(Start(key), n).s);
  }

  /** The key stream begins with what the two texts differ by. */
  ghost predicate StreamTakes(key: seq<byte>, x: seq<byte>, y: seq<byte>)
    requires key != [] && |x| == |y|
  {
    forall n :: 0 <= n < |x| ==> KeyByte(key, n) == Xor(x[n], y[n])
  }

  /** A plaintext and its ciphertext determine that much of the key stream, and only
      that. */
  lemma StreamTakesIff(key: seq<byte>, x: seq<byte>, y: seq<byte>)
    requires key != [] && |x| == |y|
    ensures Crypt(x, key) == y <==> StreamTakes(key, x, y)
  {
    forall n | 0 <= n < |x|
      ensures Crypt(x, key)[n] == y[n] <==> KeyByte(key, n) == Xor(x[n], y[n])
    {
      XorSolve(x[n], KeyByte(key, n), y[n]);
    }
  }

  /** Applying f a second time undoes it. */
  ghost predicate SelfInverse(f: (byte, nat) -> byte) {
    forall b: byte, n: nat :: f(f(b, n), n) == b
  }

  lemma EncipherSelfInverse(key: seq<byte>)
    requires key != []
    ensures SelfInverse(Encipher(key))
  {
    forall b: byte, n: nat
      ensures Encipher(key)(Encipher(key)(b, n), n) == b
    {
      XorXor(b, KeyByte(key, n));
    }
  }

  /** The cipher keeps lengths, encrypting twice with one key gives the data back,
      and the cipher text of a prefix is the prefix of the cipher text. */
  lemma CryptLaws(data: seq<byte>, key: seq<byte>, k: nat)
    requires key != [] && k <= |data|
    ensures |Crypt(data, key)| == |data|
    ensures Crypt(Crypt(data, key), key) == data
    ensures Crypt(data[..k], key) == Crypt(data, key)[..k]
  {
    var f := Encipher(key);
    EncipherSelfInverse(key);
    assert MapAt(MapAt(data, f), f) == data;
    assert MapAt(data[..k], f) == MapAt(data, f)[..k];
  }

  // -------------------------------------------------------------------- blocks

  /** f on each 512-byte block, and on a short last one, positions restarting. */
  function MapBlocks(data: seq<byte>, f: (byte, nat) -> byte): (out: seq<byte>)
    ensures |out| == |data|
    decreases |data|
  {
    if |data| <= 512 then MapAt(data, f)
    else MapAt(data[..512], f) + MapBlocks(data[512..], f)
  }

  /** tools/mk-idblock.py, rc4_blocks. */
  function CryptBlocks(data: seq<byte>, key: seq<byte>): seq<byte>
    requires key != []
  {
    MapBlocks(data, Encipher(key))
  }

  lemma {:induction false} MapBlocksAt(data: seq<byte>, f: (byte, nat) -> byte, n: nat)
    requires n < |data|
    ensures MapBlocks(data, f)[n] == f(data[n], n % 512)
    decreases |data|
  {
    if n >= 512 {
      var first, rest := MapAt(data[..512], f), MapBlocks(data[512..], f);
      MapBlocksAt(data[512..], f, n - 512);
      assert (first + rest)[n] == rest[n - 512];
      assert n % 512 == (n - 512) % 512;
    } else {
      assert n % 512 == n;
    }
  }

  /** Decrypting blockwise what was encrypted blockwise gives the data back, at
      any length. */
  lemma CryptBlocksInvolution(data: seq<byte>, key: seq<byte>)
    requires key != []
    ensures CryptBlocks(CryptBlocks(data, key), key) == data
  {
    EncipherSelfInverse(key);
    MapBlocksInvolution(data, Encipher(key));
  }

  lemma MapBlocksInvolution(data: seq<byte>, f: (byte, nat) -> byte)
    requires SelfInverse(f)
    ensures MapBlocks(MapBlocks(data, f), f) == data
  {
    var once := MapBlocks(data, f);
    forall n | 0 <= n < |data|
      ensures MapBlocks(once, f)[n] == data[n]
    {
      MapBlocksAt(data, f, n);
      MapBlocksAt(once, f, n);
    }
  }

  /** Blockwise encryption commutes with taking any slice that starts on a block
      boundary, wherever it ends. */
  lemma CryptBlocksSlice(data: seq<byte>, key: seq<byte>, lo: nat, hi: nat)
    requires key != [] && lo % 512 == 0 && lo <= hi <= |data|
    ensures CryptBlocks(data[lo..hi], key) == CryptBlocks(data, key)[lo..hi]
  {
    MapBlocksSlice(data, Encipher(key), lo, hi);
  }

  lemma SamePlace(lo: nat, n: nat)
    requires lo % 512 == 0
    ensures (lo + n) % 512 == n % 512
  {
  }

  lemma MapBlocksSliceAt(data: seq<byte>, f: (byte, nat) -> byte, lo: nat, hi: nat, n: nat)
    requires lo % 512 == 0 && lo + n < hi <= |data|
    ensures MapBlocks(data[lo..hi], f)[n] == MapBlocks(data, f)[lo + n]
  {
    MapBlocksAt(data[lo..hi], f, n);
    MapBlocksAt(data, f, lo + n);
    SamePlace(lo, n);
  }

  lemma MapBlocksSlice(data: seq<byte>, f: (byte, nat) -> byte, lo: nat, hi: nat)
    requires lo % 512 == 0 && lo <= hi <= |data|
    ensures MapBlocks(data[lo..hi], f) == MapBlocks(data, f)[lo..hi]
  {
    forall n | 0 <= n < hi - lo
      ensures MapBlocks(data[lo..hi], f)[n] == MapBlocks(data, f)[lo..hi][n]
    {
      MapBlocksSliceAt(data, f, lo, hi, n);
    }
  }
}
