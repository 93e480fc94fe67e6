/** The provisioning thread: rknand_provision_thread in
    drivers/nand-rk322x/rknand-port/rk_nand_blk.c, one step per FTL call or test.
    The answers of the closed FTL are arbitrary. */
module Provision {
  import opened Wrappers

  /** What the thread has done, in order. */
  datatype Event =
    | CapRead(v: int) | ReInit | LoadBbt(v: int) | MakeBbt | LowFormat
    | DiskUp | ProcUp | StorageUp | VendorUp | GcUp
    | DiskFailed(v: int) | ProcFailed(v: int) | VendorFailed(v: int) | GcFailed(v: int)

  datatype Pc =
    | Cap | CheckBlank | CallReInit | Cap2 | CheckFormat | CallLoadBbt | CheckMake | CallMakeBbt
    | CheckLow | CallLowFormat | Cap3 | Retry | RetryRead | Guard | AddDev | CreateProcfs | InitStorage
    | InitVendor | StartGc | FlagGc | Done | Idle | Exited | Absent

  datatype Thread = Thread(pc: Pc, cap: int, lb: int, attempt: nat, trace: seq<Event>)

  const STARTED: Thread := Thread(Cap, 0, 0, 1, [])

  const NEVER_STARTED: Thread := Thread(Absent, 0, 0, 1, [])

  predicate ReadsCapacity(pc: Pc) {
    pc == Cap || pc == Cap2 || pc == Cap3 || pc == RetryRead
  }

  /** Where the thread goes next, given what kthread_should_stop and the called
      function answer. */
  function NextPc(p: Thread, stop: bool, v: int): Option<Pc> {
    match p.pc
    case Cap => Some(CheckBlank)
    case CheckBlank => Some(if p.cap == 0 && !stop then CallReInit else Retry)
    case CallReInit => Some(Cap2)
    case Cap2 => Some(CheckFormat)
    case CheckFormat => Some(if p.cap == 0 && !stop then CallLoadBbt else Retry)
    case CallLoadBbt => Some(CheckMake)
    case CheckMake => Some(if p.lb != 0 && !stop then CallMakeBbt else CheckLow)
    case CallMakeBbt => Some(CheckLow)
    case CheckLow => Some(if !stop then CallLowFormat else Retry)
    case CallLowFormat => Some(Cap3)
    case Cap3 => Some(Retry)
    case Retry => Some(if p.cap == 0 && p.attempt <= 10 && !stop then RetryRead else Guard)
    case RetryRead => Some(Retry)
    case Guard => Some(if p.cap == 0 || stop then Done else AddDev)
    case AddDev => Some(if v == 0 then CreateProcfs else Done)
    case CreateProcfs => Some(InitStorage)
    case InitStorage => Some(InitVendor)
    case InitVendor => Some(StartGc)
    case StartGc => Some(if v == 0 then FlagGc else Done)
    case FlagGc => Some(Done)
    case Done => Some(Idle)
    case Idle => if stop then Some(Exited) else None
    case Exited => None
    case Absent => None
  }

  /** What the step does that the outside can see. */
  function Emitted(pc: Pc, v: int): Option<Event> {
    match pc
    case CallReInit => Some(ReInit)
    case CallLoadBbt => Some(LoadBbt(v))
    case CallMakeBbt => Some(MakeBbt)
    case CallLowFormat => Some(LowFormat)
    case AddDev => Some(if v == 0 then DiskUp else DiskFailed(v))
    case CreateProcfs => Some(if v == 0 then ProcUp else ProcFailed(v))
    case InitStorage => Some(StorageUp)
    case InitVendor => Some(if v == 0 then VendorUp else VendorFailed(v))
    case StartGc => Some(if v == 0 then GcUp else GcFailed(v))
    case _ => if ReadsCapacity(pc) then Some(CapRead(v)) else None
  }

  function Appended(trace: seq<Event>, e: Option<Event>): seq<Event> {
    match e
    case None => trace
    case Some(x) => trace + [x]
  }

  function Step(p: Thread, stop: bool, v: int): Option<Thread> {
    match NextPc(p, stop, v)
    case None => None
    case Some(pc) =>
      Some(Thread(pc,
                  if ReadsCapacity(p.pc) then v else p.cap,
                  if p.pc == CallLoadBbt || p.pc == CallMakeBbt then v else p.lb,
                  if p.pc == RetryRead then p.attempt + 1 else p.attempt,
                  Appended(p.trace, Emitted(p.pc, v))))
  }

  // ----------------------------------------------------------------- the ordering

  ghost predicate Happened(trace: seq<Event>, n: int, e: Event) {
    exists i :: 0 <= i < n <= |trace| && trace[i] == e
  }

  /** A reinitialisation, and later a capacity read that still gave zero. */
  ghost predicate ReinitYieldedZero(trace: seq<Event>, n: int) {
    exists i, k :: 0 <= i < k < n <= |trace| && trace[i] == ReInit && trace[k] == CapRead(0)
  }

  /** The factory bad block table was loaded or made. */
  ghost predicate TableReady(trace: seq<Event>, n: int) {
    Happened(trace, n, LoadBbt(0)) || Happened(trace, n, MakeBbt)
  }

  ghost predicate SawCapacity(trace: seq<Event>, n: int) {
    exists i :: 0 <= i < n <= |trace| && trace[i].CapRead? && trace[i].v != 0
  }

  /** The disk and every other user of the FTL. */
  predicate BringsUpUser(e: Event) {
    e == DiskUp || e == ProcUp || e == StorageUp || e == VendorUp || e == GcUp
  }

  /** Every low-level format comes after what it needs, every user after a capacity,
      and every user but the disk after the disk. */
  ghost predicate Ordered(trace: seq<Event>) {
    forall n :: 0 <= n < |trace| ==>
      && (trace[n] == LowFormat ==> ReinitYieldedZero(trace, n) && TableReady(trace, n))
      && (BringsUpUser(trace[n]) ==> SawCapacity(trace, n))
      && (BringsUpUser(trace[n]) && trace[n] != DiskUp ==> Happened(trace, n, DiskUp))
  }

  /** What a trace has established. */
  datatype Known = Known(reinit: bool, zero: bool, table: bool, capacity: bool, disk: bool)

  function Learn(k: Known, e: Event): Known {
    Known(k.reinit || e == ReInit,
          k.zero || (k.reinit && e == CapRead(0)),
          k.table || e == LoadBbt(0) || e == MakeBbt,
          k.capacity || (e.CapRead? && e.v != 0),
          k.disk || e == DiskUp)
  }

  function Knows(trace: seq<Event>): Known {
    if trace == [] then Known(false, false, false, false, false)
    else Learn(Knows(trace[..|trace| - 1]), trace[|trace| - 1])
  }

  /** The event may follow what is known. */
  predicate May(k: Known, e: Event) {
    && (e == LowFormat ==> k.zero && k.table)
    && (BringsUpUser(e) ==> k.capacity && (e == DiskUp || k.disk))
  }

  predicate Lawful(trace: seq<Event>) {
    trace == [] || (Lawful(trace[..|trace| - 1]) && May(Knows(trace[..|trace| - 1]), trace[|trace| - 1]))
  }

  lemma {:induction false} KnowsMeans(trace: seq<Event>, n: nat)
    requires n <= |trace|
    ensures Knows(trace[..n]).reinit ==> Happened(trace, n, ReInit)
    ensures Knows(trace[..n]).zero ==> ReinitYieldedZero(trace, n)
    ensures Knows(trace[..n]).table ==> TableReady(trace, n)
    ensures Knows(trace[..n]).capacity ==> SawCapacity(trace, n)
    ensures Knows(trace[..n]).disk ==> Happened(trace, n, DiskUp)
  {
    if n > 0 {
      assert trace[..n][..n - 1] == trace[..n - 1];
      KnowsMeans(trace, n - 1);
    }
  }

  lemma {:induction false} LawfulPrefix(trace: seq<Event>, n: nat)
    requires Lawful(trace) && n <= |trace|
    ensures Lawful(trace[..n])
    decreases |trace| - n
  {
    if n < |trace| {
      LawfulPrefix(trace, n + 1);
      assert trace[..n + 1][..n] == trace[..n];
    } else {
      assert trace[..n] == trace;
    }
  }

  lemma LawfulIsOrdered(trace: seq<Event>)
    requires Lawful(trace)
    ensures Ordered(trace)
  {
    forall n | 0 <= n < |trace|
      ensures trace[n] == LowFormat ==> ReinitYieldedZero(trace, n) && TableReady(trace, n)
      ensures BringsUpUser(trace[n]) ==> SawCapacity(trace, n)
      ensures BringsUpUser(trace[n]) && trace[n] != DiskUp ==> Happened(trace, n, DiskUp)
    {
      LawfulPrefix(trace, n + 1);
      assert trace[..n + 1][..n] == trace[..n];
      KnowsMeans(trace, n);
    }
  }

  predicate Formatting(pc: Pc) {
    pc == CallLoadBbt || pc == CheckMake || pc == CallMakeBbt || pc == CheckLow || pc == CallLowFormat
  }

  predicate BringingUp(pc: Pc) {
    pc == AddDev || pc == CreateProcfs || pc == InitStorage || pc == InitVendor || pc == StartGc || pc == FlagGc
  }

  /** What is known at each point; `stop` only ever turns on. */
  predicate PointInv(pc: Pc, cap: int, lb: int, k: Known, stop: bool) {
    && (pc == Cap2 ==> k.reinit)
    && (pc == CheckFormat && cap == 0 ==> k.zero)
    && (Formatting(pc) ==> k.zero)
    && (pc == CheckMake && lb == 0 ==> k.table)
    && (pc == CheckLow ==> k.table || stop)
    && (pc == CallLowFormat ==> k.table)
    && (pc != Cap && cap != 0 ==> k.capacity)
    && (pc == Cap ==> cap == 0)
    && (BringingUp(pc) ==> cap != 0 && (pc == AddDev || k.disk))
  }

  predicate OrderInv(p: Thread, stop: bool) {
    Lawful(p.trace) && PointInv(p.pc, p.cap, p.lb, Knows(p.trace), stop)
  }

  lemma TraceGrows(trace: seq<Event>, e: Event)
    ensures Knows(trace + [e]) == Learn(Knows(trace), e)
    ensures Lawful(trace + [e]) <==> Lawful(trace) && May(Knows(trace), e)
  {
    assert (trace + [e])[..|trace|] == trace;
  }

  function LearnMaybe(k: Known, e: Option<Event>): Known {
    match e
    case None => k
    case Some(x) => Learn(k, x)
  }

  /** Each step is allowed by what is known before it. */
  lemma PointAllowed(p: Thread, k: Known, stop: bool, v: int)
    requires PointInv(p.pc, p.cap, p.lb, k, stop)
    ensures Emitted(p.pc, v).Some? ==> May(k, Emitted(p.pc, v).value)
  {
  }

  /** And leaves known what the next point needs. */
  lemma PointStep(p: Thread, k: Known, stop: bool, v: int)
    requires PointInv(p.pc, p.cap, p.lb, k, stop) && NextPc(p, stop, v).Some?
    ensures PointInv(NextPc(p, stop, v).value,
                     if ReadsCapacity(p.pc) then v else p.cap,
                     if p.pc == CallLoadBbt || p.pc == CallMakeBbt then v else p.lb,
                     LearnMaybe(k, Emitted(p.pc, v)), stop)
  {
    match p.pc {
      case Cap =>
      case CheckBlank =>
      case CallReInit =>
      case Cap2 =>
      case CheckFormat =>
      case CallLoadBbt =>
      case CheckMake =>
      case CallMakeBbt =>
      case CheckLow =>
      case CallLowFormat =>
      case Cap3 =>
      case Retry =>
      case RetryRead =>
      case Guard =>
      case _ =>
    }
  }

  /** The invariant survives every step, and the stop flag turning on. */
  lemma OrderStep(p: Thread, stop: bool, v: int)
    requires OrderInv(p, stop)
    ensures OrderInv(p, true)
    ensures Step(p, stop, v).Some? ==> OrderInv(Step(p, stop, v).value, stop)
  {
    if NextPc(p, stop, v).Some? {
      PointAllowed(p, Knows(p.trace), stop, v);
      PointStep(p, Knows(p.trace), stop, v);
      var e := Emitted(p.pc, v);
      if e.Some? {
        TraceGrows(p.trace, e.value);
      }
    }
  }

  // ------------------------------------------------------------ number of reads

  function CapReads(trace: seq<Event>): nat {
    if trace == [] then 0
    else CapReads(trace[..|trace| - 1]) + if trace[|trace| - 1].CapRead? then 1 else 0
  }

  /** The reads made before the retry loop, at most, by each point. */
  function ReadsBefore(pc: Pc): nat {
    match pc
    case Cap => 0
    case Absent => 0
    case CheckBlank => 1
    case CallReInit => 1
    case Cap2 => 1
    case CheckFormat => 2
    case CallLoadBbt => 2
    case CheckMake => 2
    case CallMakeBbt => 2
    case CheckLow => 2
    case CallLowFormat => 2
    case Cap3 => 2
    case _ => 3
  }

  predicate ReadsInv(p: Thread) {
    CountInv(p.pc, p.attempt, CapReads(p.trace))
  }

  predicate CountInv(pc: Pc, attempt: nat, made: nat) {
    && 1 <= attempt <= 11
    && (ReadsBefore(pc) < 3 ==> attempt == 1)
    && (pc == RetryRead ==> attempt <= 10)
    && made <= ReadsBefore(pc) + attempt - 1
  }

  lemma CountStep(p: Thread, made: nat, stop: bool, v: int)
    requires CountInv(p.pc, p.attempt, made) && NextPc(p, stop, v).Some?
    ensures CountInv(NextPc(p, stop, v).value,
                     if p.pc == RetryRead then p.attempt + 1 else p.attempt,
                     made + if ReadsCapacity(p.pc) then 1 else 0)
  {
  }

  lemma CapReadsGrow(trace: seq<Event>, e: Event)
    ensures CapReads(trace + [e]) == CapReads(trace) + if e.CapRead? then 1 else 0
  {
    assert (trace + [e])[..|trace|] == trace;
  }

  lemma EmitsRead(pc: Pc, v: int)
    ensures ReadsCapacity(pc) <==> Emitted(pc, v).Some? && Emitted(pc, v).value.CapRead?
  {
  }

  lemma AppendedReads(trace: seq<Event>, e: Option<Event>)
    ensures CapReads(Appended(trace, e)) == CapReads(trace) + if e.Some? && e.value.CapRead? then 1 else 0
  {
    if e.Some? {
      CapReadsGrow(trace, e.value);
    }
  }

  lemma ReadsAppended(trace: seq<Event>, pc: Pc, v: int)
    ensures CapReads(Appended(trace, Emitted(pc, v))) == CapReads(trace) + if ReadsCapacity(pc) then 1 else 0
  {
    EmitsRead(pc, v);
    AppendedReads(trace, Emitted(pc, v));
  }

  lemma ReadsStep(p: Thread, stop: bool, v: int)
    requires ReadsInv(p) && Step(p, stop, v).Some?
    ensures ReadsInv(Step(p, stop, v).value)
  {
    CountStep(p, CapReads(p.trace), stop, v);
    ReadsAppended(p.trace, p.pc, v);
  }

  /** At most 13 capacity reads are made. */
  lemma AtMostThirteenReads(p: Thread)
    requires ReadsInv(p)
    ensures CapReads(p.trace) <= 13
  {
  }

  // ----------------------------------------------------------------- termination

  function Position(pc: Pc): nat {
    match pc
    case Cap => 22
    case CheckBlank => 21
    case CallReInit => 20
    case Cap2 => 19
    case CheckFormat => 18
    case CallLoadBbt => 17
    case CheckMake => 16
    case CallMakeBbt => 15
    case CheckLow => 14
    case CallLowFormat => 13
    case Cap3 => 12
    case RetryRead => 10
    case Retry => 11
    case Guard => 10
    case AddDev => 9
    case CreateProcfs => 8
    case InitStorage => 7
    case InitVendor => 6
    case StartGc => 5
    case FlagGc => 4
    case Done => 3
    case Idle => 2
    case Exited => 1
    case Absent => 1
  }

  /** An upper bound on the steps that remain. */
  function Remaining(p: Thread): int {
    Position(p.pc) + 2 * (11 - p.attempt)
  }

  /** The thread waits for nobody until it idles. */
  lemma NeverWaits(p: Thread, stop: bool, v: int)
    ensures Step(p, stop, v).None? <==> p.pc == Exited || p.pc == Absent || (p.pc == Idle && !stop)
  {
  }

  lemma StepShortens(p: Thread, stop: bool, v: int)
    requires ReadsInv(p) && Step(p, stop, v).Some?
    ensures 0 < Remaining(Step(p, stop, v).value) < Remaining(p)
  {
  }
}
