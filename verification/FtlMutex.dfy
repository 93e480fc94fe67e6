/** The mutex in front of the FTL and every context that takes it, interleaved with
    the request contexts: drivers/nand-rk322x/rknand-port/rk_nand_blk.c and the
    suspend guards of rk_nand_base.c. The FTL entries that do not take the mutex are
    not part of this model. */
module FtlMutex {
  import opened Wrappers
  import opened RequestQueue
  import Runs

  datatype GcPc = GcAbsent | GcTop | GcTry | GcRound | GcCount | GcWant | GcWriteBack | GcWait

  /** `backs` and `tries` only record: the write-backs begun and the rounds tried since
      the count last started. */
  datatype Gc = Gc(pc: GcPc, emptyTimes: nat, quit: bool, backs: nat, tries: nat)

  datatype FlushPc = FlushWant | FlushBusy

  datatype PmPc = PmIdle | PmWant | PmResuming

  /** `holds` says that a suspend has taken the mutex and no resume has released it.
      The last four only record: the initialised flag when suspend looked at it, that
      a resume found it set where the suspend had found it clear, or the other way
      round, and that a mutex was released by a context that did not hold it. */
  datatype Pm = Pm(pc: PmPc, suspended: bool, holds: bool,
                   flagAtSuspend: bool, lateInit: bool, earlyExit: bool, badUnlock: bool)

  datatype ExitPc = ExitIdle | ExitTry | ExitBusy

  datatype Holder = Free | ByWorker(w: nat) | ByGc | ByFlush(f: nat) | ByPm | ByExit

  datatype State = State(
    q: Queue, mutex: Holder, gcDo: bool, gc: Gc, flushers: map<nat, FlushPc>,
    pm: Pm, exit: ExitPc, initialised: bool)

  const BOOT: State :=
    State(EMPTY, Free, false, Gc(GcAbsent, 0, false, 0, 0), map[],
          Pm(PmIdle, false, false, false, false, false, false), ExitIdle, false)

  datatype GcLabel = GcStart | GcCheck | GcTryLock | GcRoundDone | GcCounted | GcLock | GcWritten | GcWake | SetQuit
  datatype PmLabel = Suspend | PmLock | Resume | PmUnlock
  datatype ExitLabel = Initialise | ExitCall | ExitTryLock | ExitDone
  datatype FlushLabel = FlushCall | FlushLock | FlushDone

  datatype Label =
    | Worker(a: Action)                 // rk_nand_queue_rq
    | GcThread(g: GcLabel)              // nand_gc_thread
    | Flush(f: nat, fl: FlushLabel)     // rknand_dev_flush
    | Power(p: PmLabel)                 // suspend and resume
    | Module(e: ExitLabel)              // rknand_dev_init, rknand_dev_exit

  // ------------------------------------------------------------------- the steps

  function WorkerStep(s: State, a: Action): (r: Option<State>) {
    if !Enabled(s.q, a) || (a.LockMutex? && s.mutex != Free) then None
    else
      Some(s.(q := Do(s.q, a),
              mutex := if a.LockMutex? then ByWorker(a.w) else if a.Transferred? then Free else s.mutex,
              gcDo := if a.Submit? then false else if a.Leave? then true else s.gcDo))
  }

  function GcStep(s: State, g: GcLabel): Option<State> {
    match g
    case GcStart => if s.gc.pc.GcAbsent? then Some(s.(gc := Gc(GcTop, 0, false, 0, 0), gcDo := true)) else None
    case GcCheck =>
      if !s.gc.pc.GcTop? then None
      else if s.gc.quit then Some(s.(gc := s.gc.(pc := GcAbsent)))
      else if s.gcDo then Some(s.(gc := s.gc.(pc := GcTry)))
      else Some(s.(gc := s.gc.(pc := GcWait, emptyTimes := 0, backs := 0, tries := 0)))
    case GcTryLock =>
      if !s.gc.pc.GcTry? then None
      else if s.mutex == Free then Some(s.(mutex := ByGc, gc := s.gc.(pc := GcRound, tries := s.gc.tries + 1)))
      else Some(s.(gc := s.gc.(pc := GcCount, tries := s.gc.tries + 1)))
    case GcRoundDone =>
      if s.gc.pc.GcRound? then Some(s.(mutex := Free, gc := s.gc.(pc := GcCount))) else None
    case GcCounted =>
      if !s.gc.pc.GcCount? then None
      else
        var n := s.gc.emptyTimes + 1;
        var back := 5 <= n < 7;
        Some(s.(gc := s.gc.(emptyTimes := n, pc := if back then GcWant else GcWait,
                            backs := s.gc.backs + if back then 1 else 0)))
    case GcLock =>
      if s.gc.pc.GcWant? && s.mutex == Free then Some(s.(mutex := ByGc, gc := s.gc.(pc := GcWriteBack)))
      else None
    case GcWritten =>
      if s.gc.pc.GcWriteBack? then Some(s.(mutex := Free, gc := s.gc.(pc := GcWait))) else None
    case GcWake => if s.gc.pc.GcWait? then Some(s.(gc := s.gc.(pc := GcTop))) else None
    case SetQuit => Some(s.(gc := s.gc.(quit := true)))
  }

  function FlushStep(s: State, f: nat, fl: FlushLabel): Option<State> {
    match fl
    case FlushCall =>
      if f in s.flushers || !s.initialised then None
      else Some(s.(flushers := s.flushers[f := FlushWant]))
    case FlushLock =>
      if f in s.flushers && s.flushers[f].FlushWant? && s.mutex == Free
      then Some(s.(mutex := ByFlush(f), flushers := s.flushers[f := FlushBusy]))
      else None
    case FlushDone =>
      if f in s.flushers && s.flushers[f].FlushBusy?
      then Some(s.(mutex := Free, flushers := s.flushers - {f}))
      else None
  }

  /** The four entry points are two: rknand_suspend and rknand_pm_suspend act when
      the state flag is clear, rknand_resume and rknand_pm_resume when it is set. The
      functions they call return early when the driver is not initialised. */
  function PmStep(s: State, p: PmLabel): Option<State> {
    match p
    case Suspend =>
      if !s.pm.pc.PmIdle? then None
      else if s.pm.suspended then Some(s)
      else Some(s.(pm := s.pm.(suspended := true, flagAtSuspend := s.initialised,
                               pc := if s.initialised then PmWant else PmIdle)))
    case PmLock =>
      if s.pm.pc.PmWant? && s.mutex == Free
      then Some(s.(mutex := ByPm, pm := s.pm.(pc := PmIdle, holds := true)))
      else None
    case Resume =>
      if !s.pm.pc.PmIdle? then None
      else if !s.pm.suspended then Some(s)
      else Some(s.(pm := s.pm.(suspended := false,
                               lateInit := s.pm.lateInit || (s.initialised && !s.pm.flagAtSuspend),
                               earlyExit := s.pm.earlyExit || (!s.initialised && s.pm.flagAtSuspend),
                               pc := if s.initialised then PmResuming else PmIdle)))
    case PmUnlock =>
      if !s.pm.pc.PmResuming? then None
      else Some(s.(mutex := Free,
                   pm := s.pm.(pc := PmIdle, holds := false, badUnlock := s.pm.badUnlock || !s.pm.holds)))
  }

  function ModuleStep(s: State, e: ExitLabel): Option<State> {
    match e
    case Initialise => Some(s.(initialised := true))
    case ExitCall =>
      if s.exit.ExitIdle? && s.initialised then Some(s.(initialised := false, exit := ExitTry)) else None
    case ExitTryLock =>
      if !s.exit.ExitTry? then None
      else if s.mutex == Free then Some(s.(mutex := ByExit, exit := ExitBusy))
      else Some(s.(exit := ExitIdle))
    case ExitDone => if s.exit.ExitBusy? then Some(s.(mutex := Free, exit := ExitIdle)) else None
  }

  function Next(s: State, l: Label): Option<State> {
    match l
    case Worker(a) => WorkerStep(s, a)
    case GcThread(g) => GcStep(s, g)
    case Flush(f, fl) => FlushStep(s, f, fl)
    case Power(p) => PmStep(s, p)
    case Module(e) => ModuleStep(s, e)
  }

  function Run(s: State, ls: seq<Label>): Option<State> {
    Runs.Run(Next, s, ls)
  }

  // ------------------------------------------------------------------ invariants

  /** h is inside the FTL: transferring a request, collecting garbage, writing the
      cache back, or anywhere in the suspended span. */
  predicate InFtl(s: State, h: Holder) {
    match h
    case Free => false
    case ByWorker(w) => w in s.q.workers && s.q.workers[w].Transfer?
    case ByGc => s.gc.pc.GcRound? || s.gc.pc.GcWriteBack?
    case ByFlush(f) => f in s.flushers && s.flushers[f].FlushBusy?
    case ByPm => s.pm.holds
    case ByExit => s.exit.ExitBusy?
  }

  /** The mutex is held by whoever is inside, and by nobody else. */
  ghost predicate MutexInv(s: State) {
    forall h :: InFtl(s, h) <==> h == s.mutex && h != Free
  }

  /** The mutex is held for power management while a suspend that saw the flag set is
      in force, and only then as long as no resume found the flag changed. */
  ghost predicate PmInv(pm: Pm) {
    && (pm.suspended && pm.flagAtSuspend && pm.pc.PmIdle? ==> pm.holds)
    && (!pm.lateInit ==> !pm.badUnlock && (pm.pc.PmResuming? ==> pm.holds))
    && (!pm.lateInit && !pm.earlyExit && pm.holds ==>
          pm.pc.PmResuming? || (pm.suspended && pm.flagAtSuspend && pm.pc.PmIdle?))
    && (pm.pc.PmWant? ==> pm.suspended && pm.flagAtSuspend)
    && (pm.pc.PmResuming? ==> !pm.suspended)
  }

  ghost predicate Safe(s: State) {
    Inv(s.q) && PmInv(s.pm) && (!s.pm.badUnlock ==> MutexInv(s))
  }

  /** Only h moved, and it was inside, or now is, exactly as the mutex says. */
  lemma OneMoves(s: State, t: State, me: Holder)
    requires MutexInv(s) && me != Free
    requires forall h :: h != me ==> (InFtl(t, h) <==> InFtl(s, h))
    requires InFtl(t, me) <==> t.mutex == me
    requires s.mutex == t.mutex || (s.mutex == me && t.mutex == Free) || (s.mutex == Free && t.mutex == me)
    ensures MutexInv(t)
  {
    forall h
      ensures InFtl(t, h) <==> h == t.mutex && h != Free
    {
      assert InFtl(s, h) <==> h == s.mutex && h != Free;
    }
  }

  lemma WorkerSafe(s: State, a: Action)
    requires Safe(s) && WorkerStep(s, a).Some?
    ensures Safe(WorkerStep(s, a).value)
  {
    Kept(s.q, a);
    if !s.pm.badUnlock {
      var t := WorkerStep(s, a).value;
      assert InFtl(s, ByWorker(a.w)) <==> s.mutex == ByWorker(a.w);
      OneMoves(s, t, ByWorker(a.w));
    }
  }

  lemma GcFrame(s: State, g: GcLabel)
    requires GcStep(s, g).Some?
    ensures var t := GcStep(s, g).value;
            t.q == s.q && t.flushers == s.flushers && t.pm == s.pm && t.exit == s.exit
  {
  }

  lemma GcSafe(s: State, g: GcLabel)
    requires Safe(s) && GcStep(s, g).Some?
    ensures Safe(GcStep(s, g).value)
  {
    GcFrame(s, g);
    if !s.pm.badUnlock {
      assert InFtl(s, ByGc) <==> s.mutex == ByGc;
      OneMoves(s, GcStep(s, g).value, ByGc);
    }
  }

  lemma FlushSafe(s: State, f: nat, fl: FlushLabel)
    requires Safe(s) && FlushStep(s, f, fl).Some?
    ensures Safe(FlushStep(s, f, fl).value)
  {
    if !s.pm.badUnlock {
      assert InFtl(s, ByFlush(f)) <==> s.mutex == ByFlush(f);
      OneMoves(s, FlushStep(s, f, fl).value, ByFlush(f));
    }
  }

  lemma PmSafe(s: State, p: PmLabel)
    requires Safe(s) && PmStep(s, p).Some?
    ensures Safe(PmStep(s, p).value)
  {
    if !PmStep(s, p).value.pm.badUnlock {
      assert InFtl(s, ByPm) <==> s.mutex == ByPm;
      OneMoves(s, PmStep(s, p).value, ByPm);
    }
  }

  lemma ModuleSafe(s: State, e: ExitLabel)
    requires Safe(s) && ModuleStep(s, e).Some?
    ensures Safe(ModuleStep(s, e).value)
  {
    if !s.pm.badUnlock {
      assert InFtl(s, ByExit) <==> s.mutex == ByExit;
      OneMoves(s, ModuleStep(s, e).value, ByExit);
    }
  }

  lemma StepSafe(s: State, l: Label)
    requires Safe(s) && Next(s, l).Some?
    ensures Safe(Next(s, l).value)
  {
    match l
    case Worker(a) => WorkerSafe(s, a);
    case GcThread(g) => GcSafe(s, g);
    case Flush(f, fl) => FlushSafe(s, f, fl);
    case Power(p) => PmSafe(s, p);
    case Module(e) => ModuleSafe(s, e);
  }

  lemma BootSafe()
    ensures Safe(BOOT)
  {
  }

  lemma StepsSafe()
    ensures Runs.Kept(Next, Safe)
  {
    forall s: State, l: Label | Safe(s) && Next(s, l).Some?
      ensures Safe(Next(s, l).value)
    {
      StepSafe(s, l);
    }
  }

  lemma RunSafe(s: State, ls: seq<Label>)
    requires Safe(s) && Run(s, ls).Some?
    ensures Safe(Run(s, ls).value)
  {
    StepsSafe();
    Runs.RunKeeps(Next, Safe, s, ls);
  }

  // ---------------------------------------------------------------- consequences

  /** A mutex that is not held is released only if some resume found the initialised
      flag set where its suspend had found it clear. */
  lemma NoBadUnlock(ls: seq<Label>)
    requires Run(BOOT, ls).Some? && !Run(BOOT, ls).value.pm.lateInit
    ensures !Run(BOOT, ls).value.pm.badUnlock
  {
    BootSafe();
    RunSafe(BOOT, ls);
  }

  /** In every interleaving in which no unheld mutex was released, at most one context
      is inside the FTL, and it holds the mutex. The flag may have changed between a
      suspend and its resume. */
  lemma Exclusive(ls: seq<Label>, h1: Holder, h2: Holder)
    requires Run(BOOT, ls).Some? && !Run(BOOT, ls).value.pm.badUnlock
    requires InFtl(Run(BOOT, ls).value, h1) && InFtl(Run(BOOT, ls).value, h2)
    ensures h1 == h2 == Run(BOOT, ls).value.mutex
  {
    BootSafe();
    RunSafe(BOOT, ls);
  }

  /** From the moment a suspend has taken the mutex until its resume, the mutex is
      held for it and no other context is inside. */
  lemma SuspendedSpan(ls: seq<Label>, h: Holder)
    requires Run(BOOT, ls).Some? && !Run(BOOT, ls).value.pm.badUnlock
    requires var pm := Run(BOOT, ls).value.pm;
             pm.suspended && pm.flagAtSuspend && pm.pc.PmIdle?
    ensures Run(BOOT, ls).value.mutex == ByPm
    ensures InFtl(Run(BOOT, ls).value, h) <==> h == ByPm
  {
    BootSafe();
    RunSafe(BOOT, ls);
    assert InFtl(Run(BOOT, ls).value, ByPm);
  }

  /** No context waits for the mutex, or holds it, while it holds queue_lock. */
  lemma LockOrder(ls: seq<Label>, w: nat)
    requires Run(BOOT, ls).Some?
    requires var q := Run(BOOT, ls).value.q;
             w in q.workers && (q.workers[w].WantMutex? || q.workers[w].Transfer?)
    ensures Run(BOOT, ls).value.q.lock != Some(w)
  {
    BootSafe();
    RunSafe(BOOT, ls);
  }

  /** In every interleaving requests start in order of arrival, each is in exactly
      one place, and when no context is in the loop all have been completed. */
  lemma EveryRunConserves(ls: seq<Label>)
    requires Run(BOOT, ls).Some?
    ensures var q := Run(BOOT, ls).value.q;
            && q.started + q.list == q.submitted
            && NoDup(q.submitted) && NoDup(q.completed)
            && (forall r :: r in q.submitted ==> InOnePlace(q, r))
            && ((forall w :: w in q.workers ==> !InLoop(q.workers[w])) ==>
                  q.list == [] && forall r :: r in q.submitted <==> r in q.completed)
  {
    BootSafe();
    RunSafe(BOOT, ls);
    var q := Run(BOOT, ls).value.q;
    forall r | r in q.submitted
      ensures InOnePlace(q, r)
    {
      Conservation(q, r);
    }
    if forall w :: w in q.workers ==> !InLoop(q.workers[w]) {
      Quiescent(q);
    }
  }

  /** The step that lets the holder of the mutex go on. */
  function Release(s: State): Label {
    match s.mutex
    case ByWorker(w) => Worker(Transferred(w))
    case ByGc => GcThread(if s.gc.pc.GcRound? then GcRoundDone else GcWritten)
    case ByFlush(f) => Flush(f, FlushDone)
    case ByExit => Module(ExitDone)
    case _ => Power(PmUnlock)
  }

  lemma HolderCanGoOn(s: State)
    requires MutexInv(s) && s.mutex != Free && s.mutex != ByPm
    ensures Next(s, Release(s)).Some?
  {
    assert InFtl(s, s.mutex);
  }

  /** While a request context is inside the driver and the device is not suspended,
      some context that is already inside can take its next step. */
  lemma NeverStuck(ls: seq<Label>) returns (l: Label)
    requires Run(BOOT, ls).Some?
    requires var s := Run(BOOT, ls).value;
             !s.pm.badUnlock && s.mutex != ByPm && s.q.workers != map[]
    ensures Next(Run(BOOT, ls).value, l).Some?
    ensures (l.Worker? && !l.a.Submit?) || l == Release(Run(BOOT, ls).value)
  {
    BootSafe();
    RunSafe(BOOT, ls);
    var s := Run(BOOT, ls).value;
    var a := CanMove(s.q);
    if a.LockMutex? && s.mutex != Free {
      l := Release(s);
      HolderCanGoOn(s);
    } else {
      l := Worker(a);
    }
  }

  /** How far the GC thread is from its next look at the quit flag. */
  function GcRank(pc: GcPc): nat {
    match pc
    case GcAbsent => 0
    case GcTop => 1
    case GcWait => 2
    case GcWriteBack => 3
    case GcWant => 4
    case GcCount => 5
    case GcRound => 6
    case GcTry => 7
  }

  /** The GC thread's next step. */
  function GcOwn(pc: GcPc): GcLabel {
    match pc
    case GcAbsent => GcStart
    case GcTop => GcCheck
    case GcTry => GcTryLock
    case GcRound => GcRoundDone
    case GcCount => GcCounted
    case GcWant => GcLock
    case GcWriteBack => GcWritten
    case GcWait => GcWake
  }

  lemma GcOwnSteps(s: State, l: Label)
    requires s.gc.quit && Next(s, l).Some? && l != GcThread(GcStart)
    ensures Next(s, l).value.gc.quit
    ensures GcRank(Next(s, l).value.gc.pc) + (if GcMoves(l) then 1 else 0) <= GcRank(s.gc.pc)
  {
    match l
    case GcThread(g) => assert Next(s, l) == GcStep(s, g);
    case Worker(a) => assert Next(s, l).value.gc == s.gc;
    case Flush(f, fl) => assert Next(s, l).value.gc == s.gc;
    case Power(p) => assert Next(s, l).value.gc == s.gc;
    case Module(e) => assert Next(s, l).value.gc == s.gc;
  }

  predicate GcMoves(l: Label) {
    l.GcThread? && l.g != SetQuit
  }

  function GcSteps(ls: seq<Label>): nat {
    if ls == [] then 0 else (if GcMoves(ls[0]) then 1 else 0) + GcSteps(ls[1..])
  }

  /** Once asked to quit, the GC thread takes at most seven more steps in any
      interleaving, and after seven it is gone. */
  lemma {:induction false} GcQuits(s: State, ls: seq<Label>)
    requires s.gc.quit && Run(s, ls).Some? && GcThread(GcStart) !in ls
    ensures GcSteps(ls) + GcRank(Run(s, ls).value.gc.pc) <= GcRank(s.gc.pc) <= 7
    decreases ls
  {
    if ls != [] {
      GcOwnSteps(s, ls[0]);
      GcQuits(Next(s, ls[0]).value, ls[1..]);
    }
  }

  /** It can take them unless the mutex is held, and then the holder can go on as
      long as the device is not suspended. */
  lemma GcCanQuit(ls: seq<Label>) returns (l: Label)
    requires Run(BOOT, ls).Some?
    requires var s := Run(BOOT, ls).value;
             !s.pm.badUnlock && s.mutex != ByPm && !s.gc.pc.GcAbsent?
    ensures Next(Run(BOOT, ls).value, l).Some?
    ensures (l.GcThread? && l.g != GcStart && l.g != SetQuit) || l == Release(Run(BOOT, ls).value)
  {
    BootSafe();
    RunSafe(BOOT, ls);
    var s := Run(BOOT, ls).value;
    if s.gc.pc.GcWant? && s.mutex != Free {
      l := Release(s);
      HolderCanGoOn(s);
    } else {
      l := GcThread(GcOwn(s.gc.pc));
    }
  }

  // ------------------------------------------------ when the collector is at work

  predicate IdleInv(s: State) {
    && (s.q.workers == map[] && s.q.submitter != map[] ==> s.gcDo)
    && CountInv(s.gc)
  }

  predicate CountInv(gc: Gc) {
    && gc.backs == (if gc.emptyTimes < 5 then 0 else if gc.emptyTimes == 5 then 1 else 2)
    && gc.tries == gc.emptyTimes + (if gc.pc.GcRound? || gc.pc.GcCount? then 1 else 0)
  }

  lemma IdleGc(s: State, g: GcLabel)
    requires IdleInv(s) && GcStep(s, g).Some?
    ensures IdleInv(GcStep(s, g).value)
  {
    GcFrame(s, g);
  }

  lemma IdleStep(s: State, l: Label)
    requires IdleInv(s) && Next(s, l).Some?
    ensures IdleInv(Next(s, l).value)
  {
    match l
    case Worker(a) => IdleWorker(s, a);
    case GcThread(g) => IdleGc(s, g);
    case Flush(f, fl) => assert Next(s, l).value.gc == s.gc && Next(s, l).value.gcDo == s.gcDo;
    case Power(p) => assert Next(s, l).value.gc == s.gc && Next(s, l).value.gcDo == s.gcDo;
    case Module(e) => assert Next(s, l).value.gc == s.gc && Next(s, l).value.gcDo == s.gcDo;
  }

  lemma IdleWorker(s: State, a: Action)
    requires IdleInv(s) && WorkerStep(s, a).Some?
    ensures IdleInv(WorkerStep(s, a).value)
  {
    var t := WorkerStep(s, a).value;
    if !a.Leave? {
      assert a.w in t.q.workers;
    }
  }

  /** In every run: when all request contexts have left, the collector is allowed to
      work; every round it tries is counted, whether or not it gets the mutex; and since
      its count last started it has begun to write the cache back once after the fifth
      round, a second time after the sixth, and not again. */
  lemma CollectorAtIdle(ls: seq<Label>)
    requires Run(BOOT, ls).Some?
    ensures var s := Run(BOOT, ls).value;
            && (s.q.workers == map[] && s.q.submitter != map[] ==> s.gcDo)
            && (s.gc.pc.GcTop? ==> s.gc.tries == s.gc.emptyTimes)
            && s.gc.backs == (if s.gc.emptyTimes < 5 then 0 else if s.gc.emptyTimes == 5 then 1 else 2)
  {
    forall s: State, l: Label | IdleInv(s) && Next(s, l).Some?
      ensures IdleInv(Next(s, l).value)
    {
      IdleStep(s, l);
    }
    Runs.RunKeeps(Next, IdleInv, BOOT, ls);
  }

  /** Until some context leaves or the thread is started anew. */
  predicate KeepsBusy(l: Label) {
    l != GcThread(GcStart) && !(l.Worker? && l.a.Leave?)
  }

  /** And in every run: from the arrival of a request until some context leaves, a
      collector that looks whether it may work finds that it may not. */
  lemma {:induction false} CollectorYields(s: State, w: nat, r: nat, ls: seq<Label>)
    requires Run(s, [Worker(Submit(w, r))] + ls).Some? && forall l :: l in ls ==> KeepsBusy(l)
    ensures var t := Run(s, [Worker(Submit(w, r))] + ls).value;
            !t.gcDo && (t.gc.pc.GcTop? && !t.gc.quit ==> Next(t, GcThread(GcCheck)).value.gc.pc.GcWait?)
  {
    Runs.RunCons(Next, s, Worker(Submit(w, r)), ls);
    StaysBusy(Next(s, Worker(Submit(w, r))).value, ls);
  }

  lemma {:induction false} StaysBusy(s: State, ls: seq<Label>)
    requires !s.gcDo && Run(s, ls).Some? && forall l :: l in ls ==> KeepsBusy(l)
    ensures !Run(s, ls).value.gcDo
    decreases ls
  {
    if ls != [] {
      BusyStep(s, ls[0]);
      StaysBusy(Next(s, ls[0]).value, ls[1..]);
    }
  }

  lemma BusyStep(s: State, l: Label)
    requires !s.gcDo && Next(s, l).Some? && KeepsBusy(l)
    ensures !Next(s, l).value.gcDo
  {
  }

  /** While the driver is not initialised, flush and exit do nothing, and suspend and
      resume leave the mutex alone. */
  lemma UninitialisedDoesNothing(s: State, f: nat)
    requires !s.initialised && s.pm.pc.PmIdle?
    ensures Next(s, Flush(f, FlushCall)).None? && Next(s, Module(ExitCall)).None?
    ensures forall p :: p == Suspend || p == Resume ==>
              && Next(s, Power(p)).Some? && Next(s, Power(p)).value.pm.pc.PmIdle?
              && Next(s, Power(p)).value.mutex == s.mutex
  {
    assert PmStep(s, Suspend).Some? && PmStep(s, Resume).Some?;
  }

  /** Try-locks do not wait: the collector and module exit always go on. */
  lemma TryLocksGoOn(s: State)
    ensures s.gc.pc.GcTry? ==> Next(s, GcThread(GcTryLock)).Some?
    ensures s.exit.ExitTry? ==> Next(s, Module(ExitTryLock)).Some?
  {
  }

  // --------------------------------------------------------------- every request ends

  /** A new request is always taken in. */
  lemma AcceptsNew(s: State, w: nat, r: nat)
    requires w !in s.q.workers && r !in s.q.submitter
    ensures Next(s, Worker(Submit(w, r))).Some? && r in Next(s, Worker(Submit(w, r))).value.q.submitter
  {
  }

  ghost function Left(s: State): nat {
    2 * Work(s.q) + if s.mutex == Free then 0 else 1
  }

  /** The device is not suspended and the mutex is in order. */
  ghost predicate Awake(s: State) {
    Safe(s) && !s.pm.badUnlock && s.mutex != ByPm
  }

  lemma WorkerGoesOn(s: State, a: Action)
    requires Awake(s) && Enabled(s.q, a) && !a.Submit? && (a.LockMutex? ==> s.mutex == Free)
    ensures Next(s, Worker(a)).Some?
    ensures Awake(Next(s, Worker(a)).value) && Left(Next(s, Worker(a)).value) < Left(s)
    ensures Next(s, Worker(a)).value.q.submitter == s.q.submitter
  {
    StepSafe(s, Worker(a));
    WorkDecreases(s.q, a);
  }

  lemma HolderLetsGo(s: State)
    requires Awake(s) && s.mutex != Free && !s.mutex.ByWorker?
    ensures Next(s, Release(s)).Some?
    ensures Awake(Next(s, Release(s)).value) && Left(Next(s, Release(s)).value) < Left(s)
    ensures Next(s, Release(s)).value.q == s.q
  {
    HolderCanGoOn(s);
    StepSafe(s, Release(s));
    OnlyWorkersChangeQueue(s, Release(s));
  }

  lemma OneMore(s: State) returns (l: Label)
    requires Awake(s) && s.q.workers != map[]
    ensures Next(s, l).Some? && Awake(Next(s, l).value) && Left(Next(s, l).value) < Left(s)
    ensures Next(s, l).value.q.submitter == s.q.submitter
  {
    var a := CanMove(s.q);
    if a.LockMutex? && s.mutex.ByWorker? {
      assert InFtl(s, s.mutex);
      a := Transferred(s.mutex.w);
      l := Worker(a);
      WorkerGoesOn(s, a);
    } else if a.LockMutex? && s.mutex != Free {
      l := Release(s);
      HolderLetsGo(s);
    } else {
      l := Worker(a);
      WorkerGoesOn(s, a);
    }
  }

  /** From every such state the contexts that are inside can finish, with every request
      that was handed in completed. */
  lemma {:induction false} Drains(s: State) returns (ls: seq<Label>)
    requires Awake(s)
    ensures Run(s, ls).Some? && |ls| <= Left(s)
    ensures var t := Run(s, ls).value.q;
            t.workers == map[] && t.list == [] && forall r :: r in s.q.submitter ==> r in t.completed
    decreases Left(s)
  {
    ls := [];
    if s.q.workers == map[] {
      AllReturned(s.q);
    } else {
      var l := OneMore(s);
      var rest := Drains(Next(s, l).value);
      ls := [l] + rest;
      Runs.RunCons(Next, s, l, rest);
    }
  }

  /** So whenever the device is awake, a request that is handed in can be completed. */
  lemma RequestCompletes(before: seq<Label>, w: nat, r: nat) returns (ls: seq<Label>)
    requires Run(BOOT, before).Some?
    requires var s := Run(BOOT, before).value;
             !s.pm.badUnlock && s.mutex != ByPm && w !in s.q.workers && r !in s.q.submitter
    ensures Run(BOOT, before + ([Worker(Submit(w, r))] + ls)).Some?
    ensures r in Run(BOOT, before + ([Worker(Submit(w, r))] + ls)).value.q.completed
  {
    BootSafe();
    RunSafe(BOOT, before);
    var s := Run(BOOT, before).value;
    AcceptsNew(s, w, r);
    StepSafe(s, Worker(Submit(w, r)));
    ls := Drains(Next(s, Worker(Submit(w, r))).value);
    Runs.RunCons(Next, s, Worker(Submit(w, r)), ls);
    Runs.RunSplit(Next, BOOT, before, [Worker(Submit(w, r))] + ls);
  }

  function WorkerSteps(ls: seq<Label>): nat {
    if ls == [] then 0 else (if ls[0].Worker? then 1 else 0) + WorkerSteps(ls[1..])
  }

  lemma OnlyWorkersChangeQueue(s: State, l: Label)
    requires Next(s, l).Some? && !l.Worker?
    ensures Next(s, l).value.q == s.q
  {
    match l
    case GcThread(g) => assert GcStep(s, g).value.q == s.q;
    case Flush(f, fl) => assert FlushStep(s, f, fl).value.q == s.q;
    case Power(p) => assert PmStep(s, p).value.q == s.q;
    case Module(e) => assert ModuleStep(s, e).value.q == s.q;
  }

  /** Whatever the other contexts do in between, the request contexts take at most
      Work(q) steps until a new request arrives. */
  lemma {:induction false} DrainBound(s: State, ls: seq<Label>)
    requires Run(s, ls).Some?
    requires forall i :: 0 <= i < |ls| && ls[i].Worker? ==> !ls[i].a.Submit?
    ensures WorkerSteps(ls) + Work(Run(s, ls).value.q) <= Work(s.q)
    decreases ls
  {
    if ls != [] {
      var t := Next(s, ls[0]).value;
      DrainBound(t, ls[1..]);
      if ls[0].Worker? {
        WorkDecreases(s.q, ls[0].a);
      } else {
        OnlyWorkersChangeQueue(s, ls[0]);
      }
    }
  }

  /** A resume ends with the mutex released, by its holder, exactly when the
      initialised flag is what the suspend saw. */
  lemma ResumeCleanIff(s: State)
    requires Safe(s) && !s.pm.lateInit && !s.pm.earlyExit && s.pm.pc.PmIdle? && s.pm.suspended
    ensures Next(s, Power(Resume)).Some?
    ensures var t := Next(s, Power(Resume)).value;
            var u := if t.pm.pc.PmResuming? then Next(t, Power(PmUnlock)).value else t;
            !u.pm.holds && !u.pm.badUnlock <==> s.initialised == s.pm.flagAtSuspend
  {
  }

  lemma FirstSteps(s: State, a: Label, b: Label, ls: seq<Label>)
    requires Next(s, a).Some? && Next(Next(s, a).value, b).Some?
    ensures Run(s, [a, b] + ls) == Run(Next(Next(s, a).value, b).value, ls)
  {
    Runs.RunCons(Next, s, a, [b] + ls);
    Runs.RunCons(Next, Next(s, a).value, b, ls);
    assert [a, b] + ls == [a] + ([b] + ls);
  }

  /** It can be different in both directions: suspending before initialisation makes
      the resume release a mutex nobody holds, and module exit while suspended makes
      the resume leave the mutex locked. */
  lemma FlagChangeBreaksResume()
    ensures var early := Run(BOOT, [Power(Suspend), Module(Initialise), Power(Resume), Power(PmUnlock)]);
            early.Some? && early.value.pm.badUnlock
    ensures var late := Run(BOOT, [Module(Initialise), Power(Suspend), Power(PmLock), Module(ExitCall), Power(Resume)]);
            late.Some? && late.value.mutex == ByPm && !late.value.pm.suspended && late.value.pm.pc.PmIdle?
  {
    var a, b, c, d := Power(Suspend), Module(Initialise), Power(Resume), Power(PmUnlock);
    var e, f := Power(PmLock), Module(ExitCall);
    FirstSteps(BOOT, a, b, [c, d]);
    FirstSteps(Next(Next(BOOT, a).value, b).value, c, d, []);
    FirstSteps(BOOT, b, a, [e, f, c]);
    FirstSteps(Next(Next(BOOT, b).value, a).value, e, f, [c]);
    assert [a, b] + [c, d] == [a, b, c, d] && [c, d] + [] == [c, d];
    assert [b, a] + [e, f, c] == [b, a, e, f, c] && [e, f] + [c] == [e, f, c];
    Runs.RunCons(Next, Next(Next(Next(Next(BOOT, b).value, a).value, e).value, f).value, c, []);
    assert [c] + [] == [c];
  }

  /** And then exclusion itself is lost: the garbage collector, which took the mutex
      while the device counted as suspended, and a flush are both inside. */
  lemma ExclusionLost()
    ensures var ls := [Power(Suspend), Module(Initialise), GcThread(GcStart), GcThread(GcCheck), GcThread(GcTryLock),
                       Power(Resume), Power(PmUnlock), Flush(0, FlushCall), Flush(0, FlushLock)];
            && Run(BOOT, ls).Some?
            && InFtl(Run(BOOT, ls).value, ByGc) && InFtl(Run(BOOT, ls).value, ByFlush(0))
  {
    var a, b, c, d, e := Power(Suspend), Module(Initialise), GcThread(GcStart), GcThread(GcCheck), GcThread(GcTryLock);
    var f, g, h, i := Power(Resume), Power(PmUnlock), Flush(0, FlushCall), Flush(0, FlushLock);
    var s2 := Next(Next(BOOT, a).value, b).value;
    var s4 := Next(Next(s2, c).value, d).value;
    var s6 := Next(Next(s4, e).value, f).value;
    var s8 := Next(Next(s6, g).value, h).value;
    FirstSteps(BOOT, a, b, [c, d, e, f, g, h, i]);
    FirstSteps(s2, c, d, [e, f, g, h, i]);
    FirstSteps(s4, e, f, [g, h, i]);
    FirstSteps(s6, g, h, [i]);
    Runs.RunCons(Next, s8, i, []);
    assert [a, b] + [c, d, e, f, g, h, i] == [a, b, c, d, e, f, g, h, i];
    assert [c, d] + [e, f, g, h, i] == [c, d, e, f, g, h, i];
    assert [e, f] + [g, h, i] == [e, f, g, h, i];
    assert [g, h] + [i] == [g, h, i] && [i] + [] == [i];
  }
}
