/** The request list and the contexts of rk_nand_queue_rq that work on it, step by
    step: drivers/nand-rk322x/rknand-port/rk_nand_blk.c. */
module RequestQueue {
  import opened Wrappers

  /** Where a call of rk_nand_queue_rq stands. */
  datatype Pc =
    | Enter(r: nat)      // about to take queue_lock and append r
    | Loop               // holds queue_lock, about to look at rq_list
    | WantMutex(r: nat)  // dropped queue_lock with r in hand
    | Transfer(r: nat)   // holds the mutex, r is with the FTL
    | Finish(r: nat)     // released the mutex, about to end r
    | Relock             // about to take queue_lock again
    | Leaving            // out of the loop, queue_lock released

  /** The list, the holder of queue_lock and the contexts. The other fields record
      what happened: the order of arrival, start and completion, and which context
      appended and took each request. */
  datatype Queue = Queue(
    list: seq<nat>, lock: Option<nat>, workers: map<nat, Pc>,
    submitted: seq<nat>, started: seq<nat>, completed: seq<nat>,
    submitter: map<nat, nat>, taker: map<nat, nat>)

  const EMPTY: Queue := Queue([], None, map[], [], [], [], map[], map[])

  datatype Action =
    | Submit(w: nat, r: nat) | Append(w: nat) | Take(w: nat) | LockMutex(w: nat)
    | Transferred(w: nat) | EndRequest(w: nat) | Reacquire(w: nat) | Drained(w: nat) | Leave(w: nat)

  /** Whether context a.w can do a now; the mutex is someone else's concern. */
  predicate Enabled(q: Queue, a: Action) {
    if a.Submit? then a.w !in q.workers && a.r !in q.submitter
    else
      a.w in q.workers &&
      var pc := q.workers[a.w];
      match a
      case Submit(_, _) => true
      case Append(_) => pc.Enter? && q.lock.None?
      case Take(_) => pc == Loop && q.list != []
      case LockMutex(_) => pc.WantMutex?
      case Transferred(_) => pc.Transfer?
      case EndRequest(_) => pc.Finish?
      case Reacquire(_) => pc == Relock && q.lock.None?
      case Drained(_) => pc == Loop && q.list == []
      case Leave(_) => pc == Leaving
  }

  function Do(q: Queue, a: Action): Queue
    requires Enabled(q, a)
  {
    match a
    case Submit(w, r) => q.(workers := q.workers[w := Enter(r)], submitter := q.submitter[r := w])
    case Append(w) =>
      var r := q.workers[w].r;
      q.(lock := Some(w), list := q.list + [r], submitted := q.submitted + [r],
         workers := q.workers[w := Loop])
    case Take(w) =>
      var r := q.list[0];
      q.(lock := None, list := q.list[1..], started := q.started + [r], taker := q.taker[r := w],
         workers := q.workers[w := WantMutex(r)])
    case LockMutex(w) => q.(workers := q.workers[w := Transfer(q.workers[w].r)])
    case Transferred(w) => q.(workers := q.workers[w := Finish(q.workers[w].r)])
    case EndRequest(w) =>
      q.(completed := q.completed + [q.workers[w].r], workers := q.workers[w := Relock])
    case Reacquire(w) => q.(lock := Some(w), workers := q.workers[w := Loop])
    case Drained(w) => q.(lock := None, workers := q.workers[w := Leaving])
    case Leave(w) => q.(workers := q.workers - {w})
  }

  // ----------------------------------------------------------------- invariants

  predicate InLoop(pc: Pc) {
    !pc.Enter? && !pc.Leaving?
  }

  predicate Holds(pc: Pc, r: nat) {
    (pc.WantMutex? || pc.Transfer? || pc.Finish?) && pc.r == r
  }

  /** queue_lock is held exactly by the context that looks at the list. */
  ghost predicate LockInv(q: Queue) {
    && (q.lock.Some? ==> q.lock.value in q.workers && q.workers[q.lock.value] == Loop)
    && (forall w :: w in q.workers && q.workers[w] == Loop ==> q.lock == Some(w))
  }

  ghost predicate NoDup(s: seq<nat>) {
    forall i, k :: 0 <= i < k < |s| ==> s[i] != s[k]
  }

  /** Requests start in the order they arrived, and none arrives twice. */
  ghost predicate FifoInv(q: Queue) {
    && q.started + q.list == q.submitted
    && NoDup(q.submitted)
    && (forall r :: r in q.submitted ==> r in q.submitter)
    && (forall w :: w in q.workers && q.workers[w].Enter? ==>
          var r := q.workers[w].r;
          r !in q.submitted && r in q.submitter && q.submitter[r] == w)
  }

  /** A started request is completed, once, or in the hands of the one context that
      took it. */
  ghost predicate HandInv(q: Queue) {
    && (forall r :: r in q.started <==> r in q.taker)
    && NoDup(q.completed)
    && (forall r :: r in q.completed ==> r in q.taker)
    && (forall r :: r in q.taker && r !in q.completed ==>
          q.taker[r] in q.workers && Holds(q.workers[q.taker[r]], r))
    && (forall w, r :: w in q.workers && Holds(q.workers[w], r) ==>
          r in q.taker && q.taker[r] == w && r !in q.completed)
  }

  /** The context that appended a listed request is still in the loop. */
  ghost predicate AttendedInv(q: Queue) {
    forall r :: r in q.list ==>
      r in q.submitter && q.submitter[r] in q.workers && InLoop(q.workers[q.submitter[r]])
  }

  /** A request that was handed in is appended, or its context is about to. */
  ghost predicate ArrivedInv(q: Queue) {
    forall r :: r in q.submitter && r !in q.submitted ==>
      q.submitter[r] in q.workers && q.workers[q.submitter[r]] == Enter(r)
  }

  ghost predicate Inv(q: Queue) {
    LockInv(q) && FifoInv(q) && HandInv(q) && AttendedInv(q) && ArrivedInv(q)
  }

  lemma ArrivedKept(q: Queue, a: Action)
    requires ArrivedInv(q) && Enabled(q, a)
    ensures ArrivedInv(Do(q, a))
  {
  }

  lemma LockKept(q: Queue, a: Action)
    requires LockInv(q) && Enabled(q, a)
    ensures LockInv(Do(q, a))
  {
  }

  lemma AppendNoDup(s: seq<nat>, r: nat)
    requires NoDup(s) && r !in s
    ensures NoDup(s + [r])
  {
  }

  lemma FifoKept(q: Queue, a: Action)
    requires FifoInv(q) && Enabled(q, a)
    ensures FifoInv(Do(q, a))
  {
    match a {
      case Append(w) =>
        var r := q.workers[w].r;
        AppendNoDup(q.submitted, r);
        assert q.started + (q.list + [r]) == q.submitted + [r];
      case Take(w) =>
        assert (q.started + [q.list[0]]) + q.list[1..] == q.started + q.list;
      case _ =>
    }
  }

  lemma HeadIsNew(q: Queue)
    requires FifoInv(q) && q.list != []
    ensures q.list[0] !in q.started
  {
    var n := |q.started|;
    assert forall i :: 0 <= i < n ==> q.submitted[i] == q.started[i];
    assert q.submitted[n] == q.list[0];
  }

  lemma HandTake(q: Queue, w: nat)
    requires FifoInv(q) && HandInv(q) && Enabled(q, Take(w))
    ensures HandInv(Do(q, Take(w)))
  {
    HeadIsNew(q);
    HandsTake(q, w, q.list[0]);
    var t := Do(q, Take(w));
    assert forall r :: r in t.started <==> r in q.started || r == q.list[0];
  }

  /** Taking a new request into empty hands keeps what every hand holds. */
  lemma HandsTake(q: Queue, w: nat, x: nat)
    requires HandInv(q) && w in q.workers && q.workers[w] == Loop && x !in q.taker
    ensures var workers, taker := q.workers[w := WantMutex(x)], q.taker[x := w];
            && (forall r :: r in taker && r !in q.completed ==>
                  taker[r] in workers && Holds(workers[taker[r]], r))
            && (forall v, r :: v in workers && Holds(workers[v], r) ==>
                  r in taker && taker[r] == v && r !in q.completed)
  {
    assert forall v, r :: v in q.workers && Holds(q.workers[v], r) ==> r in q.taker;
  }

  lemma HandEnd(q: Queue, w: nat)
    requires HandInv(q) && Enabled(q, EndRequest(w))
    ensures HandInv(Do(q, EndRequest(w)))
  {
    assert Holds(q.workers[w], q.workers[w].r);
    AppendNoDup(q.completed, q.workers[w].r);
  }

  lemma HandSame(q: Queue, t: Queue)
    requires HandInv(q) && t.started == q.started && t.taker == q.taker && t.completed == q.completed
    requires forall w, r :: w in t.workers && Holds(t.workers[w], r) <==> w in q.workers && Holds(q.workers[w], r)
    ensures HandInv(t)
  {
  }

  /** The other steps change what one context is doing, not what it holds. */
  lemma HandMove(q: Queue, a: Action)
    requires HandInv(q) && Enabled(q, a) && !a.Take? && !a.EndRequest?
    ensures HandInv(Do(q, a))
  {
    HandSame(q, Do(q, a));
  }

  lemma HandKept(q: Queue, a: Action)
    requires FifoInv(q) && HandInv(q) && Enabled(q, a)
    ensures HandInv(Do(q, a))
  {
    match a {
      case Take(w) => HandTake(q, w);
      case EndRequest(w) => HandEnd(q, w);
      case _ => HandMove(q, a);
    }
  }

  lemma AttendedKept(q: Queue, a: Action)
    requires LockInv(q) && FifoInv(q) && AttendedInv(q) && Enabled(q, a)
    ensures AttendedInv(Do(q, a))
  {
  }

  lemma Kept(q: Queue, a: Action)
    requires Inv(q) && Enabled(q, a)
    ensures Inv(Do(q, a))
  {
    LockKept(q, a);
    FifoKept(q, a);
    HandKept(q, a);
    AttendedKept(q, a);
    ArrivedKept(q, a);
  }

  // --------------------------------------------------------------- consequences

  /** r is on the list, in the hands of exactly the context that took it, or
      completed, and in no two of these places. */
  ghost predicate InOnePlace(q: Queue, r: nat) {
    && (r in q.list <==> r !in q.taker)
    && (r in q.completed ==> r in q.taker)
    && (r in q.taker && r !in q.completed ==>
          forall w :: w in q.workers && Holds(q.workers[w], r) <==> w == q.taker[r])
    && (r in q.list || r in q.completed ==> forall w :: w in q.workers ==> !Holds(q.workers[w], r))
  }

  /** Every request that was appended is in one place, once. */
  lemma Conservation(q: Queue, r: nat)
    requires Inv(q) && r in q.submitted
    ensures InOnePlace(q, r)
    ensures NoDup(q.list) && NoDup(q.started) && NoDup(q.completed)
  {
    var n := |q.started|;
    assert forall i :: 0 <= i < n ==> q.submitted[i] == q.started[i];
    assert forall i :: 0 <= i < |q.list| ==> q.submitted[n + i] == q.list[i];
  }

  lemma ListEmpty(s: seq<nat>)
    ensures s == [] || exists r :: r in s
  {
    if s != [] {
      assert s[0] in s;
    }
  }

  /** When no context is in the loop, nothing is left behind: the list is empty and
      every request that arrived has been completed. */
  lemma Quiescent(q: Queue)
    requires Inv(q) && forall w :: w in q.workers ==> !InLoop(q.workers[w])
    ensures q.list == []
    ensures forall r :: r in q.submitted <==> r in q.completed
  {
    ListEmpty(q.list);
    assert q.started + [] == q.started;
  }

  /** When all contexts have returned, every request that was handed in is completed. */
  lemma AllReturned(q: Queue)
    requires Inv(q) && q.workers == map[]
    ensures q.list == [] && forall r :: r in q.submitter ==> r in q.completed
  {
    Quiescent(q);
  }

  /** As long as a context is inside rk_nand_queue_rq, some context can go on, if
      only by acquiring the mutex. */
  lemma CanMove(q: Queue) returns (a: Action)
    requires Inv(q) && q.workers != map[]
    ensures Enabled(q, a) && !a.Submit?
  {
    if q.lock.Some? {
      a := if q.list == [] then Drained(q.lock.value) else Take(q.lock.value);
    } else {
      var w :| w in q.workers;
      match q.workers[w] {
        case Enter(_) => a := Append(w);
        case WantMutex(_) => a := LockMutex(w);
        case Transfer(_) => a := Transferred(w);
        case Finish(_) => a := EndRequest(w);
        case Relock => a := Reacquire(w);
        case Leaving => a := Leave(w);
        case Loop => a := Drained(w);
      }
    }
  }

  // ------------------------------------------------------------- bounded draining

  function Rank(pc: Pc): nat {
    match pc
    case Enter(_) => 8
    case WantMutex(_) => 6
    case Transfer(_) => 5
    case Finish(_) => 4
    case Relock => 3
    case Loop => 2
    case Leaving => 1
  }

  ghost function RankSum(m: map<nat, Pc>): nat
    decreases |m|
  {
    if m == map[] then 0
    else
      var w :| w in m;
      Rank(m[w]) + RankSum(m - {w})
  }

  lemma {:induction false} RankSumAt(m: map<nat, Pc>, w: nat)
    requires w in m
    ensures RankSum(m) == Rank(m[w]) + RankSum(m - {w})
    decreases |m|
  {
    var v :| v in m && RankSum(m) == Rank(m[v]) + RankSum(m - {v});
    if v != w {
      RankSumAt(m - {v}, w);
      RankSumAt(m - {w}, v);
      assert m - {v} - {w} == m - {w} - {v};
    }
  }

  lemma RankSumUpdate(m: map<nat, Pc>, w: nat, pc: Pc)
    requires w in m
    ensures RankSum(m[w := pc]) + Rank(m[w]) == RankSum(m) + Rank(pc)
  {
    RankSumAt(m, w);
    RankSumAt(m[w := pc], w);
    assert m[w := pc] - {w} == m - {w};
  }

  /** How many steps the contexts can still take before all have returned. */
  ghost function Work(q: Queue): nat {
    5 * |q.list| + RankSum(q.workers)
  }

  /** Every step but the arrival of a new request uses some of it up, so the queue
      drains in at most Work(q) steps. */
  lemma WorkDecreases(q: Queue, a: Action)
    requires Enabled(q, a) && !a.Submit?
    ensures Work(Do(q, a)) < Work(q)
  {
    if a.Leave? {
      RankSumAt(q.workers, a.w);
    } else {
      RankSumUpdate(q.workers, a.w, Do(q, a).workers[a.w]);
    }
  }
}
