/** What the key does in RC4: tools/mk-idblock.py. */
module Rc4Key {
  import opened Bytes
  import opened Rc4

  /** Byte i of the key, repeated as often as needed. */
  function KeyAt(key: seq<byte>, i: nat): byte
    requires key != []
  {
    key[i % |key|]
  }

  // ------------------------------------------------ the schedule reads the key

  lemma AddCancels(x: byte, a: byte, b: byte)
    ensures Add(x, a) == Add(x, b) <==> a == b
  {
  }

  /** From the same table and position a round ends at the same position exactly when
      the key bytes agree. */
  lemma RoundIff(k: seq<byte>, l: seq<byte>, n: nat)
    requires k != [] && l != [] && n < 256 && KeySchedule(k, n) == KeySchedule(l, n)
    ensures KeySchedule(k, n + 1) == KeySchedule(l, n + 1) <==> KeyAt(k, n) == KeyAt(l, n)
    ensures KeySchedule(k, n + 1).j == KeySchedule(l, n + 1).j <==> KeyAt(k, n) == KeyAt(l, n)
  {
    var p := KeySchedule(k, n);
    AddCancels(Add(p.j, p.s[n]), KeyAt(k, n), KeyAt(l, n));
  }

  ghost predicate SamePositions(k: seq<byte>, l: seq<byte>, n: nat)
    requires k != [] && l != [] && n <= 256
  {
    forall m :: 0 <= m <= n ==> KeySchedule(k, m).j == KeySchedule(l, m).j
  }

  ghost predicate SameKeyBytes(k: seq<byte>, l: seq<byte>, n: nat)
    requires k != [] && l != []
  {
    forall i :: 0 <= i < n ==> KeyAt(k, i) == KeyAt(l, i)
  }

  lemma {:induction false} SameSchedule(k: seq<byte>, l: seq<byte>, n: nat)
    requires k != [] && l != [] && n <= 256 && SameKeyBytes(k, l, n)
    ensures KeySchedule(k, n) == KeySchedule(l, n)
  {
    if n > 0 {
      SameSchedule(k, l, n - 1);
      RoundIff(k, l, n - 1);
    }
  }

  lemma {:induction false} PositionsTell(k: seq<byte>, l: seq<byte>, n: nat)
    requires k != [] && l != [] && n <= 256 && SamePositions(k, l, n)
    ensures SameKeyBytes(k, l, n)
  {
    if n > 0 {
      PositionsTell(k, l, n - 1);
      SameSchedule(k, l, n - 1);
      assert KeySchedule(k, n).j == KeySchedule(l, n).j;
      RoundIff(k, l, n - 1);
    }
  }

  /** Every byte of the repeated key counts: two keys lead the schedule through the
      same positions exactly as far as they agree. */
  lemma ScheduleReadsKey(k: seq<byte>, l: seq<byte>, n: nat)
    requires k != [] && l != [] && n <= 256
    ensures SamePositions(k, l, n) <==> SameKeyBytes(k, l, n)
  {
    if SamePositions(k, l, n) {
      PositionsTell(k, l, n);
    }
    if SameKeyBytes(k, l, n) {
      forall m | 0 <= m <= n
        ensures KeySchedule(k, m).j == KeySchedule(l, m).j
      {
        SameSchedule(k, l, m);
      }
    }
  }

  // ------------------------------------------------------------- a known stream

  /** The key that leads every round to its own position. */
  function StillKey(): (k: seq<byte>)
    ensures |k| == 256
  {
    seq(256, i requires 0 <= i < 256 => if i < 2 then 0 else 257 - i)
  }

  lemma StillRound(i: nat)
    requires i < 256
    ensures Add(Add(if i == 0 then 0 else i - 1, i), KeyAt(StillKey(), i)) == i
    ensures Swap(Identity(), i, i) == Identity()
  {
    assert i % |StillKey()| == i;
  }

  lemma {:induction false} StillSchedule(n: nat)
    requires n <= 256
    ensures KeySchedule(StillKey(), n) == Schedule(Identity(), if n == 0 then 0 else n - 1)
  {
    if n > 0 {
      StillSchedule(n - 1);
      StillRound(n - 1);
    }
  }

  /** One round of output, from the entries that it looks at. */
  lemma NextRound(g: Generator, i: byte, j: byte, a: byte, b: byte, t: byte)
    requires Add(g.i, 1) == i && g.s[i] == a && Add(g.j, a) == j && g.s[j] == b && Add(b, a) == t
    ensures g.Next().i == i && g.Next().j == j && g.Next().s == g.s[i := b][j := a]
    ensures g.Next().Output() == g.s[i := b][j := a][t]
  {
  }

  lemma AfterSteps(g: Generator)
    ensures After(g, 1) == g.Next() && After(g, 2) == g.Next().Next()
    ensures After(g, 3) == g.Next().Next().Next() && After(g, 4) == g.Next().Next().Next().Next()
  {
  }

  lemma FirstKeyBytes(key: seq<byte>)
    requires key != []
    ensures var g1 := Start(key).Next();
            var g2, g3 := g1.Next(), g1.Next().Next();
            && KeyByte(key, 0) == g1.Output() && KeyByte(key, 1) == g2.Output()
            && KeyByte(key, 2) == g3.Output() && KeyByte(key, 3) == g3.Next().Output()
  {
    AfterSteps(Start(key));
  }

  lemma ThreeRounds(g: Generator)
    requires g == Generator(Identity(), 0, 0)
    ensures g.Next().Output() == 2 && g.Next().Next().Output() == 5 && g.Next().Next().Next().Output() == 7
  {
    var g1 := g.Next();
    var g2 := g1.Next();
    NextRound(g, 1, 1, 1, 1, 2);
    NextRound(g1, 2, 3, 2, 3, 5);
    NextRound(g2, 3, 5, 2, 5, 7);
  }

  /** With the still key the table starts as the identity, and the key stream begins
      2, 5, 7. */
  lemma StillStream()
    ensures FullSchedule(StillKey()) == Identity()
    ensures KeyByte(StillKey(), 0) == 2 && KeyByte(StillKey(), 1) == 5 && KeyByte(StillKey(), 2) == 7
  {
    StillSchedule(|Identity()|);
    FirstKeyBytes(StillKey());
    ThreeRounds(Start(StillKey()));
  }

  // ------------------------------------------------------- checking a schedule

  /** What a key schedule is claimed to do. Round i goes to position to(i); last(i) is
      the last earlier round that went to position i, or -1; found(i) is what round i
      finds at its own position; and k(i) is its key byte. */
  datatype Trace = Trace(to: nat -> int, last: nat -> int, found: nat -> int, k: nat -> int)

  /** The claim is right about round i as far as other rounds are. */
  ghost predicate Good(t: Trace, i: nat) {
    && 0 <= t.to(i) < 256 && 0 <= t.found(i) < 256
    && (var x := (if i == 0 then 0 else t.to(i - 1)) + t.found(i) + t.k(i);
        t.to(i) == x || t.to(i) + 256 == x || t.to(i) + 512 == x)
    && (if t.last(i) >= 0
        then t.last(i) < i && t.to(t.last(i)) == i && t.found(i) == t.found(t.last(i))
        else t.found(i) == i)
    && (t.to(i) > i ==> t.last(t.to(i)) >= i)
  }

  ghost predicate AllGood(t: Trace, key: seq<byte>)
    requires key != []
  {
    forall i: nat :: i < 256 ==> Good(t, i) && t.k(i) == KeyAt(key, i)
  }

  /** The last of the first n rounds that went to p, or -1. */
  function LastHit(t: Trace, p: nat, n: nat): (h: int)
    ensures -1 <= h < n && (h >= 0 ==> t.to(h) == p)
    ensures forall k: nat :: h < k < n ==> t.to(k) != p
    decreases n
  {
    if n == 0 then -1 else if t.to(n - 1) == p then n - 1 else LastHit(t, p, n - 1)
  }

  lemma LastHitIs(t: Trace, key: seq<byte>, i: nat)
    requires key != [] && AllGood(t, key) && i < 256
    ensures LastHit(t, i, i) == if t.last(i) >= 0 then t.last(i) else -1
  {
    var h := LastHit(t, i, i);
    assert Good(t, i);
    if h >= 0 {
      assert Good(t, h);
    }
  }

  /** What stands at a position that no round has reached by itself yet. */
  ghost predicate Ahead(t: Trace, s: State, n: nat) {
    forall p: nat :: n <= p < 256 ==>
      s[p] == if LastHit(t, p, n) >= 0 then t.found(LastHit(t, p, n)) else p
  }

  lemma AddsUp(x: byte, a: nat, k: byte, r: nat)
    requires a < 256 && r < 256 && (r == x + a + k || r + 256 == x + a + k || r + 512 == x + a + k)
    ensures Add(Add(x, a), k) == r
  {
  }

  lemma AheadSwap(t: Trace, s: State, i: nat)
    requires i < 256 && 0 <= t.to(i) < 256 && Ahead(t, s, i) && s[i] == t.found(i)
    ensures Ahead(t, Swap(s, i, t.to(i)), i + 1)
  {
    var next := Swap(s, i, t.to(i));
    forall p: nat | i + 1 <= p < 256
      ensures next[p] == if LastHit(t, p, i + 1) >= 0 then t.found(LastHit(t, p, i + 1)) else p
    {
      assert s[p] == if LastHit(t, p, i) >= 0 then t.found(LastHit(t, p, i)) else p;
    }
  }

  /** A claim that is good about every round is right about the schedule. */
  lemma {:induction false} ScheduleIs(t: Trace, key: seq<byte>, n: nat)
    requires key != [] && AllGood(t, key) && n <= 256
    ensures KeySchedule(key, n).j == if n == 0 then 0 else t.to(n - 1)
    ensures Ahead(t, KeySchedule(key, n).s, n)
    ensures n < 256 ==> KeySchedule(key, n).s[n] == t.found(n)
  {
    if n > 0 {
      var i := n - 1;
      ScheduleIs(t, key, i);
      var p := KeySchedule(key, i);
      assert Good(t, i);
      AddsUp(p.j, t.found(i), KeyAt(key, i), t.to(i));
      AheadSwap(t, p.s, i);
    }
    if n < 256 {
      LastHitIs(t, key, n);
      assert Good(t, n);
    }
  }

  lemma RoundSwaps(t: Trace, key: seq<byte>, i: nat)
    requires key != [] && AllGood(t, key) && i < 256
    ensures 0 <= t.to(i) < 256
    ensures KeySchedule(key, i + 1).s == Swap(KeySchedule(key, i).s, i, t.to(i))
  {
    assert Good(t, i);
    ScheduleIs(t, key, i + 1);
  }

  /** No round from a to b goes to position p, and p's own round is not among them. */
  ghost predicate Away(t: Trace, p: nat, a: nat, b: nat) {
    (p < a || b <= p) && forall m: nat :: a <= m < b ==> t.to(m) != p
  }

  lemma SwapsOthers(s: State, i: byte, j: byte, p: byte)
    requires p != i && p != j
    ensures Swap(s, i, j)[p] == s[p]
  {
  }

  lemma SwapsBoth(s: State, i: byte, j: byte)
    ensures Swap(s, i, j)[i] == s[j] && Swap(s, i, j)[j] == s[i]
  {
  }

  lemma {:induction false} StaysAway(t: Trace, key: seq<byte>, p: byte, a: nat, b: nat)
    requires key != [] && AllGood(t, key) && a <= b <= 256 && Away(t, p, a, b)
    ensures KeySchedule(key, b).s[p] == KeySchedule(key, a).s[p]
    decreases b
  {
    if a < b {
      assert Away(t, p, a, b - 1);
      StaysAway(t, key, p, a, b - 1);
      RoundSwaps(t, key, b - 1);
      SwapsOthers(KeySchedule(key, b - 1).s, b - 1, t.to(b - 1), p);
    }
  }

  /** A position keeps what the last round that went there put into it. */
  lemma KeepsHit(t: Trace, key: seq<byte>, p: byte, a: nat, b: nat)
    requires key != [] && AllGood(t, key) && a < b <= 256 && t.to(a) == p && Away(t, p, a + 1, b)
    ensures KeySchedule(key, b).s[p] == t.found(a)
  {
    ScheduleIs(t, key, a);
    RoundSwaps(t, key, a);
    SwapsBoth(KeySchedule(key, a).s, a, p);
    StaysAway(t, key, p, a + 1, b);
  }

  /** Or what its own round fetched. */
  lemma KeepsOwn(t: Trace, key: seq<byte>, p: byte, b: nat)
    requires key != [] && AllGood(t, key) && p < b <= 256 && Away(t, p, p + 1, b)
    ensures 0 <= t.to(p) < 256 && KeySchedule(key, b).s[p] == KeySchedule(key, p).s[t.to(p)]
  {
    RoundSwaps(t, key, p);
    SwapsBoth(KeySchedule(key, p).s, p, t.to(p));
    StaysAway(t, key, p, p + 1, b);
  }

  lemma KeepsFirst(t: Trace, key: seq<byte>, p: byte, b: nat)
    requires key != [] && AllGood(t, key) && b <= 256 && Away(t, p, 0, b)
    ensures KeySchedule(key, b).s[p] == p
  {
    StaysAway(t, key, p, 0, b);
  }
}
