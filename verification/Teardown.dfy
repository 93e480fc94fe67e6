/** Taking the driver down while its provisioning thread may still be running:
    nand_blk_unregister, rknand_dev_shutdown and rknand_dev_exit in
    drivers/nand-rk322x/rknand-port/rk_nand_blk.c. Shutdown and unregister are not
    called at the same time. */
module Teardown {
  import opened Wrappers
  import opened Provision
  import ProvisionLog
  import Runs

  datatype GcPc = GcNone | GcRunning | GcExited

  /** The GC thread: its quit flag, the completions of thread_exit that nobody has
      waited for yet, and how often someone has waited. */
  datatype Gc = Gc(pc: GcPc, quit: bool, completions: nat, waits: nat)

  /** How often a resource was created and how often it was released. */
  datatype Tally = Tally(made: nat, freed: nat)

  datatype Resources = Resources(disk: Tally, proc: Tally, tags: Tally, buf: Tally, major: Tally)

  datatype InitPhase = NotYet | Up | Down

  datatype UnregPc = UOut | UJoin | UGc | UWait | UDevs | UTags | UProc | UBuf | UMajor | UEnd

  datatype ShutPc = SOut | SWait | SEnd

  datatype State = State(
    prov: Thread, stop: bool, provTask: bool,
    gc: Gc, gcStarted: bool, procfsCreated: bool,
    res: Resources, phase: InitPhase,
    unreg: UnregPc, shut: ShutPc)

  /** What nand_blk_register leaves; the thread may have failed to start. */
  function Registered(threadStarted: bool): State {
    State(if threadStarted then STARTED else NEVER_STARTED, false, threadStarted,
          Gc(GcNone, false, 0, 0), false, false,
          Resources(Tally(0, 0), Tally(0, 0), Tally(1, 0), Tally(1, 0), Tally(1, 0)), NotYet,
          UOut, SOut)
  }

  datatype Label =
    | Prov(v: int)          // the provisioning thread, with the answer it gets
    | GcExit                // the GC thread sees quit
    | Unregister            // the next step of nand_blk_unregister
    | Shutdown              // the next step of rknand_dev_shutdown
    | Initialise            // rknand_dev_init sets the flag
    | DevExit               // rknand_dev_exit up to and including its call

  function Free(t: Tally): Tally {
    if t.made > t.freed then t.(freed := t.freed + 1) else t
  }

  // ------------------------------------------------------------------- the steps

  /** What a step of the provisioning thread to p does besides. */
  function Provisioned(s: State, p: Thread, v: int): State {
    var pc, ok := s.prov.pc, v == 0;
    var disk := if pc == AddDev && ok then s.res.disk.(made := s.res.disk.made + 1) else s.res.disk;
    var proc := if pc == CreateProcfs && ok then s.res.proc.(made := s.res.proc.made + 1) else s.res.proc;
    s.(prov := p,
       res := s.res.(disk := disk, proc := proc),
       procfsCreated := s.procfsCreated || (pc == CreateProcfs && ok),
       gc := if pc == StartGc then s.gc.(quit := false, pc := if ok then GcRunning else s.gc.pc) else s.gc,
       gcStarted := s.gcStarted || pc == FlagGc)
  }

  function ProvStep(s: State, v: int): Option<State> {
    match Step(s.prov, s.stop, v)
    case None => None
    case Some(p) => Some(Provisioned(s, p, v))
  }

  function GcStep(s: State): Option<State> {
    if s.gc.pc.GcRunning? && s.gc.quit
    then Some(s.(gc := s.gc.(pc := GcExited, completions := s.gc.completions + 1)))
    else None
  }

  /** wait_for_completion(&thread_exit), and the flag cleared after it. */
  function Awaited(s: State): State
    requires s.gc.completions > 0
  {
    s.(gc := s.gc.(completions := s.gc.completions - 1, waits := s.gc.waits + 1), gcStarted := false)
  }

  function UnregStep(s: State): Option<State> {
    match s.unreg
    case UOut =>
      if s.phase != Up then Some(s)
      else if s.shut.SWait? then None
      else if s.provTask then Some(s.(stop := true, unreg := UJoin))
      else Some(s.(unreg := UGc))
    case UJoin => if s.prov.pc == Exited then Some(s.(provTask := false, unreg := UGc)) else None
    case UGc =>
      if s.gcStarted then Some(s.(gc := s.gc.(quit := true), unreg := UWait)) else Some(s.(unreg := UDevs))
    case UWait => if s.gc.completions > 0 then Some(Awaited(s).(unreg := UDevs)) else None
    case UDevs => Some(s.(res := s.res.(disk := Tally(s.res.disk.made, s.res.disk.made)), unreg := UTags))
    case UTags => Some(s.(res := s.res.(tags := Free(s.res.tags)), unreg := UProc))
    case UProc =>
      if s.procfsCreated
      then Some(s.(res := s.res.(proc := s.res.proc.(freed := s.res.proc.freed + 1)),
                   procfsCreated := false, unreg := UBuf))
      else Some(s.(unreg := UBuf))
    case UBuf => Some(s.(res := s.res.(buf := Free(s.res.buf)), unreg := UMajor))
    case UMajor =>
      Some(s.(res := s.res.(major := s.res.major.(freed := s.res.major.freed + 1)), unreg := UEnd))
    case UEnd => None
  }

  function ShutStep(s: State): Option<State> {
    match s.shut
    case SOut =>
      if s.unreg != UOut && s.unreg != UEnd then None
      else if s.phase == Up && s.gcStarted && !s.gc.quit
      then Some(s.(gc := s.gc.(quit := true), shut := SWait))
      else Some(s.(shut := SEnd))
    case SWait => if s.gc.completions > 0 then Some(Awaited(s).(shut := SEnd)) else None
    case SEnd => None
  }

  /** rknand_dev_exit clears the flag before it calls nand_blk_unregister, which
      then returns at once. */
  function ModuleStep(s: State, l: Label): Option<State> {
    match l
    case Initialise => if s.phase == NotYet then Some(s.(phase := Up)) else None
    case DevExit => if s.phase == Up && s.unreg == UOut then UnregStep(s.(phase := Down)) else None
    case _ => None
  }

  function Next(s: State, l: Label): Option<State> {
    match l
    case Prov(v) => ProvStep(s, v)
    case GcExit => GcStep(s)
    case Unregister => UnregStep(s)
    case Shutdown => ShutStep(s)
    case Initialise => ModuleStep(s, l)
    case DevExit => ModuleStep(s, l)
  }

  function Run(s: State, ls: seq<Label>): Option<State> {
    Runs.Run(Next, s, ls)
  }

  // ------------------------------------------------------------------ invariants

  predicate Gone(p: Thread) {
    p.pc == Exited || p.pc == Absent
  }

  /** The steps of nand_blk_unregister in order. */
  function Stage(u: UnregPc): nat {
    match u
    case UOut => 0
    case UJoin => 1
    case UGc => 2
    case UWait => 3
    case UDevs => 4
    case UTags => 5
    case UProc => 6
    case UBuf => 7
    case UMajor => 8
    case UEnd => 9
  }

  /** The GC thread is awaited at most once, and only after it was started. */
  predicate GcInv(s: State) {
    && (s.gc.pc.GcNone? ==> s.gc.completions == 0 && s.gc.waits == 0 && !s.gcStarted)
    && (s.gc.pc.GcRunning? ==> s.gc.completions == 0 && s.gc.waits == 0)
    && (s.gc.pc.GcExited? ==> s.gc.completions + s.gc.waits == 1)
    && (s.gcStarted ==> s.gc.waits == 0)
    && (Position(s.prov.pc) >= 5 ==> s.gc.pc.GcNone?)
    && (s.prov.pc == FlagGc ==> !s.gcStarted && s.gc.waits == 0 && !s.gc.pc.GcNone?)
    && (!s.gc.pc.GcNone? && s.prov.pc != FlagGc ==> s.gcStarted || s.gc.waits == 1)
  }

  /** Unregister has passed the joins it has passed. */
  predicate JoinInv(s: State) {
    && (s.unreg == UOut ==> !s.stop)
    && (s.prov.pc == Exited ==> s.stop)
    && (s.provTask ==> s.prov.pc != Absent)
    && (!s.provTask ==> Gone(s.prov))
    && (s.unreg == UJoin ==> s.stop && s.provTask)
    && (Stage(s.unreg) >= 2 ==> !s.provTask)
    && (s.unreg == UWait || s.shut == SWait ==> s.gc.quit && s.gcStarted)
    && (s.shut == SWait ==> s.unreg == UOut)
    && (Stage(s.unreg) >= 4 ==> !s.gcStarted)
  }

  predicate TallyInv(s: State) {
    && s.res.disk.made <= 1 && s.res.proc.made <= 1
    && (Position(s.prov.pc) >= 9 ==> s.res.disk.made == 0)
    && (Position(s.prov.pc) >= 8 ==> s.res.proc.made == 0)
    && s.res.disk.freed == (if Stage(s.unreg) >= 5 then s.res.disk.made else 0)
    && s.res.tags == Tally(1, if Stage(s.unreg) >= 6 then 1 else 0)
    && s.res.proc.freed == (if Stage(s.unreg) >= 7 then s.res.proc.made else 0)
    && (s.procfsCreated <==> s.res.proc.freed < s.res.proc.made)
    && s.res.buf == Tally(1, if Stage(s.unreg) >= 8 then 1 else 0)
    && s.res.major == Tally(1, if Stage(s.unreg) >= 9 then 1 else 0)
  }

  predicate Safe(s: State) {
    ReadsInv(s.prov) && OrderInv(s.prov, s.stop) && GcInv(s) && JoinInv(s) && TallyInv(s)
  }

  lemma RegisteredGc(threadStarted: bool)
    ensures GcInv(Registered(threadStarted)) && JoinInv(Registered(threadStarted))
  {
  }

  lemma RegisteredTally(threadStarted: bool)
    ensures TallyInv(Registered(threadStarted))
  {
  }

  lemma FirstThread(threadStarted: bool)
    ensures var p := if threadStarted then STARTED else NEVER_STARTED;
            ReadsInv(p) && OrderInv(p, false)
  {
  }

  lemma RegisteredSafe(threadStarted: bool)
    ensures Safe(Registered(threadStarted))
  {
    RegisteredGc(threadStarted);
    RegisteredTally(threadStarted);
    FirstThread(threadStarted);
  }

  /** How the thread gets from one point to the next, as far as the rest depends on
      it: it passes each bring-up point once and exits only from idling. */
  predicate Moves(pc: Pc, to: Pc, stop: bool, v: int) {
    && pc != Exited && pc != Absent && to != Absent
    && (to == Exited ==> stop)
    && (Position(to) >= 9 ==> Position(pc) >= 9 && pc != AddDev)
    && (Position(to) >= 8 ==> Position(pc) >= 8 && pc != CreateProcfs)
    && (Position(to) >= 5 ==> Position(pc) >= 5 && pc != StartGc)
    && (to == FlagGc <==> pc == StartGc && v == 0)
  }

  lemma StepMoves(p: Thread, stop: bool, v: int)
    requires Step(p, stop, v).Some?
    ensures Moves(p.pc, Step(p, stop, v).value.pc, stop, v)
  {
  }

  lemma ProvGc(s: State, p: Thread, v: int)
    requires GcInv(s) && Moves(s.prov.pc, p.pc, s.stop, v)
    ensures GcInv(Provisioned(s, p, v))
  {
  }

  lemma ProvJoin(s: State, p: Thread, v: int)
    requires GcInv(s) && JoinInv(s) && Moves(s.prov.pc, p.pc, s.stop, v)
    ensures JoinInv(Provisioned(s, p, v))
  {
    assert s.gcStarted ==> s.prov.pc != StartGc;
  }

  lemma ProvTally(s: State, p: Thread, v: int)
    requires JoinInv(s) && TallyInv(s) && Moves(s.prov.pc, p.pc, s.stop, v)
    ensures TallyInv(Provisioned(s, p, v))
  {
  }

  lemma ProvSafe(s: State, v: int)
    requires Safe(s) && ProvStep(s, v).Some?
    ensures Safe(ProvStep(s, v).value)
  {
    ReadsStep(s.prov, s.stop, v);
    OrderStep(s.prov, s.stop, v);
    StepMoves(s.prov, s.stop, v);
    var p := Step(s.prov, s.stop, v).value;
    ProvGc(s, p, v);
    ProvJoin(s, p, v);
    ProvTally(s, p, v);
  }

  lemma UnregGc(s: State)
    requires GcInv(s) && JoinInv(s) && UnregStep(s).Some?
    ensures GcInv(UnregStep(s).value) && JoinInv(UnregStep(s).value)
  {
    match s.unreg
    case UOut =>
    case UJoin =>
    case UGc =>
    case UWait =>
    case _ =>
  }

  lemma UnregTally(s: State)
    requires JoinInv(s) && TallyInv(s) && UnregStep(s).Some?
    ensures TallyInv(UnregStep(s).value)
  {
    match s.unreg
    case UDevs =>
    case UTags =>
    case UProc =>
    case UBuf =>
    case UMajor =>
    case _ =>
  }

  lemma UnregProv(s: State)
    requires UnregStep(s).Some?
    ensures UnregStep(s).value.prov == s.prov && (s.stop ==> UnregStep(s).value.stop)
  {
  }

  lemma UnregSafe(s: State)
    requires Safe(s) && UnregStep(s).Some?
    ensures Safe(UnregStep(s).value)
  {
    OrderStep(s.prov, s.stop, 0);
    UnregProv(s);
    UnregGc(s);
    UnregTally(s);
  }

  lemma GcSafe(s: State)
    requires Safe(s) && GcStep(s).Some?
    ensures Safe(GcStep(s).value)
  {
  }

  lemma ShutGc(s: State)
    requires GcInv(s) && JoinInv(s) && ShutStep(s).Some?
    ensures GcInv(ShutStep(s).value) && JoinInv(ShutStep(s).value)
  {
  }

  lemma ShutSafe(s: State)
    requires Safe(s) && ShutStep(s).Some?
    ensures Safe(ShutStep(s).value)
  {
    ShutGc(s);
    var t := ShutStep(s).value;
    assert t.prov == s.prov && t.stop == s.stop && t.res == s.res;
  }

  lemma ModuleSafe(s: State, l: Label)
    requires Safe(s) && ModuleStep(s, l).Some?
    ensures Safe(ModuleStep(s, l).value)
  {
    var t := ModuleStep(s, l).value;
    assert t == s.(phase := t.phase);
  }

  lemma StepSafe(s: State, l: Label)
    requires Safe(s) && Next(s, l).Some?
    ensures Safe(Next(s, l).value)
  {
    match l
    case Prov(v) => ProvSafe(s, v);
    case GcExit => GcSafe(s);
    case Unregister => UnregSafe(s);
    case Shutdown => ShutSafe(s);
    case Initialise => ModuleSafe(s, l);
    case DevExit => ModuleSafe(s, l);
  }

  lemma StepsSafe()
    ensures Runs.Kept(Next, Safe)
  {
    forall s: State, l: Label | Safe(s) && Next(s, l).Some?
      ensures Safe(Next(s, l).value)
    {
      StepSafe(s, l);
    }
  }

  lemma RunSafe(s: State, ls: seq<Label>)
    requires Safe(s) && Run(s, ls).Some?
    ensures Safe(Run(s, ls).value)
  {
    StepsSafe();
    Runs.RunKeeps(Next, Safe, s, ls);
  }

  // ---------------------------------------------------------------- consequences

  /** Whenever the teardown starts, a low-level format has been preceded by a
      reinitialisation that left the capacity zero and by a bad block table that was
      loaded or made; the disk comes up only after a capacity was seen, and the other
      users of the FTL only after the disk; and the capacity is read at most 13 times. */
  lemma ProvisioningOrdered(threadStarted: bool, ls: seq<Label>)
    requires Run(Registered(threadStarted), ls).Some?
    ensures var trace := Run(Registered(threadStarted), ls).value.prov.trace;
            Ordered(trace) && CapReads(trace) <= 13
  {
    RegisteredSafe(threadStarted);
    RunSafe(Registered(threadStarted), ls);
    var p := Run(Registered(threadStarted), ls).value.prov;
    LawfulIsOrdered(p.trace);
    AtMostThirteenReads(p);
  }

  /** The provisioning thread has left nothing out so far, unless it was told to stop. */
  predicate Going(s: State) {
    s.stop || s.prov.pc == Absent || ProvisionLog.DoneInv(s.prov)
  }

  lemma GoingStep(s: State, l: Label)
    requires Going(s) && Next(s, l).Some?
    ensures Going(Next(s, l).value)
  {
    match l
    case Prov(v) =>
      if !s.stop && s.prov.pc != Absent {
        ProvisionLog.DoneStep(s.prov, v);
      }
    case _ => StopStays(s, l);
  }

  lemma StopStays(s: State, l: Label)
    requires !l.Prov? && Next(s, l).Some?
    ensures Next(s, l).value.prov == s.prov && (s.stop ==> Next(s, l).value.stop)
  {
    match l
    case Unregister => UnregProv(s);
    case _ =>
  }

  /** In every run in which it was not told to stop, a provisioning thread that has
      finished has left nothing out. */
  lemma ProvisioningThorough(ls: seq<Label>)
    requires Run(Registered(true), ls).Some?
    requires var s := Run(Registered(true), ls).value;
             !s.stop && (s.prov.pc == Pc.Done || s.prov.pc == Idle)
    ensures ProvisionLog.Thorough(Run(Registered(true), ls).value.prov.trace)
  {
    forall s: State, l: Label | Going(s) && Next(s, l).Some?
      ensures Going(Next(s, l).value)
    {
      GoingStep(s, l);
    }
    Runs.RunKeeps(Next, Going, Registered(true), ls);
    ProvisionLog.FinishedIsThorough(Run(Registered(true), ls).value.prov);
  }

  /** Both threads are gone, every resource that was created has been released
      once, and the GC thread has been awaited once if it was started. */
  predicate AllReleased(s: State) {
    && Gone(s.prov) && !s.gc.pc.GcRunning?
    && s.gc.completions == 0
    && s.gc.waits == (if s.gc.pc.GcNone? then 0 else 1)
    && s.res.disk.freed == s.res.disk.made <= 1
    && s.res.proc.freed == s.res.proc.made <= 1
    && s.res.tags == s.res.buf == s.res.major == Tally(1, 1)
  }

  lemma EndReleased(s: State)
    requires GcInv(s) && JoinInv(s) && TallyInv(s) && s.unreg == UEnd
    ensures AllReleased(s)
  {
  }

  /** nand_blk_unregister, entered with the flag set at any point of provisioning,
      before or after a shutdown, ends with everything released. */
  lemma UnregisterReleasesAll(threadStarted: bool, ls: seq<Label>)
    requires Run(Registered(threadStarted), ls).Some?
    requires Run(Registered(threadStarted), ls).value.unreg == UEnd
    ensures AllReleased(Run(Registered(threadStarted), ls).value)
  {
    RegisteredSafe(threadStarted);
    RunSafe(Registered(threadStarted), ls);
    EndReleased(Run(Registered(threadStarted), ls).value);
  }

  /** Unregister never hangs by itself: until it is done, one of the contexts it
      waits for, or it, can take a step, whatever the FTL answers. */
  lemma UnregisterNeverStuck(s: State, v: int) returns (l: Label)
    requires Safe(s) && s.unreg != UOut && s.unreg != UEnd
    ensures (l == Prov(v) || l == GcExit || l == Unregister) && Next(s, l).Some? && Next(s, l) != Some(s)
  {
    l := Unstuck(s, v);
  }

  lemma JoinedMoves(s: State, v: int)
    requires JoinInv(s) && s.unreg == UJoin && s.prov.pc != Exited
    ensures ProvStep(s, v).Some? && ProvStep(s, v).value != s
  {
    NeverWaits(s.prov, s.stop, v);
    StepMoves(s.prov, s.stop, v);
    StepChanges(s.prov, s.stop, v);
  }

  lemma StepChanges(p: Thread, stop: bool, v: int)
    requires Step(p, stop, v).Some?
    ensures Step(p, stop, v).value.pc != p.pc
  {
  }

  lemma Unstuck(s: State, v: int) returns (l: Label)
    requires GcInv(s) && JoinInv(s) && s.unreg != UOut && s.unreg != UEnd
    ensures (l == Prov(v) || l == GcExit || l == Unregister) && Next(s, l).Some? && Next(s, l) != Some(s)
  {
    if s.unreg == UJoin && s.prov.pc != Exited {
      l := Prov(v);
      JoinedMoves(s, v);
    } else if s.unreg == UWait && s.gc.completions == 0 {
      l := GcExit;
    } else {
      l := Unregister;
    }
  }

  function GcLeft(pc: GcPc): nat {
    match pc case GcNone => 2 case GcRunning => 1 case GcExited => 0
  }

  function ShutLeft(pc: ShutPc): nat {
    match pc case SOut => 2 case SWait => 1 case SEnd => 0
  }

  function PhaseLeft(phase: InitPhase): nat {
    match phase case NotYet => 2 case Up => 1 case Down => 0
  }

  /** An upper bound on the steps that all contexts together can still take. */
  function Fuel(s: State): int {
    Remaining(s.prov) + GcLeft(s.gc.pc) + (9 - Stage(s.unreg)) + ShutLeft(s.shut) + PhaseLeft(s.phase)
  }

  lemma ProvFuel(s: State, v: int)
    requires ReadsInv(s.prov) && GcInv(s) && ProvStep(s, v).Some?
    ensures Fuel(ProvStep(s, v).value) < Fuel(s)
  {
    StepShortens(s.prov, s.stop, v);
    var t := ProvStep(s, v).value;
    assert t.unreg == s.unreg && t.shut == s.shut && t.phase == s.phase;
    assert GcLeft(t.gc.pc) <= GcLeft(s.gc.pc);
  }

  lemma UnregAdvances(s: State)
    requires UnregStep(s).Some? && (s.unreg != UOut || s.phase == Up)
    ensures Stage(UnregStep(s).value.unreg) > Stage(s.unreg)
  {
  }

  lemma UnregFuel(s: State)
    requires UnregStep(s).Some? && (s.unreg != UOut || s.phase == Up)
    ensures Fuel(UnregStep(s).value) < Fuel(s)
  {
    var t := UnregStep(s).value;
    UnregAdvances(s);
    assert t.prov == s.prov && t.shut == s.shut && t.phase == s.phase && t.gc.pc == s.gc.pc;
  }

  lemma OtherFuel(s: State, l: Label)
    requires (l.GcExit? || l.Shutdown? || l.Initialise? || l.DevExit?) && Next(s, l).Some?
    ensures Fuel(Next(s, l).value) < Fuel(s)
  {
    var t := Next(s, l).value;
    assert t.prov == s.prov && t.unreg == s.unreg;
  }

  lemma FuelPositive(s: State)
    requires ReadsInv(s.prov)
    ensures Fuel(s) >= 0
  {
  }

  /** Every step that does anything uses some of it up, so every run ends, and by
      UnregisterNeverStuck a run that entered unregister ends with it done. */
  lemma FuelDecreases(s: State, l: Label)
    requires Safe(s) && Next(s, l).Some? && Next(s, l).value != s
    ensures 0 <= Fuel(Next(s, l).value) < Fuel(s)
  {
    StepSafe(s, l);
    FuelPositive(Next(s, l).value);
    match l
    case Prov(v) => ProvFuel(s, v);
    case Unregister => UnregFuel(s);
    case _ => OtherFuel(s, l);
  }

  /** An unregister that was entered stays entered. */
  ghost predicate Entered(s: State) {
    Safe(s) && s.unreg != UOut
  }

  lemma EnteredKept()
    ensures Runs.Kept(Next, Entered) && Runs.Lowers(Next, Entered, Fuel)
  {
    forall s: State, l: Label | Entered(s) && Next(s, l).Some?
      ensures Entered(Next(s, l).value)
      ensures Next(s, l).value != s ==> 0 <= Fuel(Next(s, l).value) < Fuel(s)
    {
      StepSafe(s, l);
      StaysIn(s, l);
      if Next(s, l).value != s {
        FuelDecreases(s, l);
      }
    }
  }

  /** Every way on from a point inside unregister ends after at most Fuel(s) steps
      that do anything, and when nothing more can be done, unregister is done. */
  lemma UnregisterInevitable(s: State, ls: seq<Label>)
    requires Entered(s) && Runs.Effective(Next, s, ls)
    ensures |ls| <= Fuel(s) && Run(s, ls).Some?
    ensures (forall l :: Next(Run(s, ls).value, l).Some? ==> Next(Run(s, ls).value, l).value == Run(s, ls).value)
              ==> Run(s, ls).value.unreg == UEnd
  {
    EnteredKept();
    Runs.EffectiveRunsEnd(Next, Entered, Fuel, s, ls);
    var t := Run(s, ls).value;
    FuelPositive(t);
    if t.unreg != UEnd {
      var l := UnregisterNeverStuck(t, 0);
      assert Next(t, l).Some? && Next(t, l).value != t;
    }
  }

  /** Put together: from any point of an unregister in progress, and for any answers
      of the FTL, the contexts it waits for bring it to its end. */
  lemma {:induction false} UnregisterCompletes(s: State, answer: Thread -> int) returns (ls: seq<Label>)
    requires Safe(s) && s.unreg != UOut
    ensures Run(s, ls).Some? && Run(s, ls).value.unreg == UEnd && |ls| <= Fuel(s)
    decreases Fuel(s)
  {
    ls := [];
    FuelPositive(s);
    if s.unreg != UEnd {
      var l := UnregisterNeverStuck(s, answer(s.prov));
      var t := Next(s, l).value;
      StepSafe(s, l);
      FuelDecreases(s, l);
      StaysIn(s, l);
      var rest := UnregisterCompletes(t, answer);
      ls := [l] + rest;
      Runs.RunCons(Next, s, l, rest);
    }
  }

  /** With the flag set and no shutdown waiting, unregister is entered at once. */
  lemma UnregisterEnters(s: State)
    requires Safe(s) && s.phase == Up && s.unreg == UOut && s.shut != SWait
    ensures Next(s, Unregister).Some? && Entered(Next(s, Unregister).value)
  {
    StepSafe(s, Unregister);
  }

  /** From every reachable point at which the flag is set, calling unregister leads to
      its end, with everything released. */
  lemma UnregisterFromAnywhere(threadStarted: bool, before: seq<Label>, answer: Thread -> int)
    returns (ls: seq<Label>)
    requires Run(Registered(threadStarted), before).Some?
    requires var s := Run(Registered(threadStarted), before).value;
             s.phase == Up && s.unreg == UOut && s.shut != SWait
    ensures Run(Registered(threadStarted), before + ([Unregister] + ls)).Some?
    ensures AllReleased(Run(Registered(threadStarted), before + ([Unregister] + ls)).value)
  {
    var r := Registered(threadStarted);
    RegisteredSafe(threadStarted);
    RunSafe(r, before);
    var s := Run(r, before).value;
    UnregisterEnters(s);
    ls := UnregisterCompletes(Next(s, Unregister).value, answer);
    Runs.RunCons(Next, s, Unregister, ls);
    Runs.RunSplit(Next, r, before, [Unregister] + ls);
    UnregisterReleasesAll(threadStarted, before + ([Unregister] + ls));
  }

  /** Such a point is reached by initialising. */
  lemma InitialiseSets(threadStarted: bool)
    ensures Run(Registered(threadStarted), [Initialise]) == Some(Registered(threadStarted).(phase := Up))
  {
    Runs.RunCons(Next, Registered(threadStarted), Initialise, []);
    assert [Initialise] + [] == [Initialise];
  }

  // ------------------------------------------------------------------- shutdown

  /** A shutdown that found a GC thread waits for it, and has then awaited it. */
  ghost predicate Stopping(s: State) {
    && Safe(s) && s.shut != SOut
    && (s.shut == SEnd ==> s.gc.pc.GcExited? && s.gc.waits == 1 && !s.gcStarted)
  }

  lemma StoppingKept(s: State, l: Label)
    requires Stopping(s) && Next(s, l).Some?
    ensures Stopping(Next(s, l).value)
  {
    StepSafe(s, l);
    match l
    case Prov(v) => StepMoves(s.prov, s.stop, v);
    case _ => StoppingOther(s, l);
  }

  lemma StoppingOther(s: State, l: Label)
    requires GcInv(s) && JoinInv(s) && !l.Prov? && Next(s, l).Some? && s.shut != SOut
    requires s.shut == SEnd ==> s.gc.pc.GcExited? && s.gc.waits == 1 && !s.gcStarted
    ensures var t := Next(s, l).value;
            t.shut != SOut && (t.shut == SEnd ==> t.gc.pc.GcExited? && t.gc.waits == 1 && !t.gcStarted)
  {
  }

  lemma StoppingAlways()
    ensures Runs.Kept(Next, Stopping)
  {
    forall s: State, l: Label | Stopping(s) && Next(s, l).Some?
      ensures Stopping(Next(s, l).value)
    {
      StoppingKept(s, l);
    }
  }

  lemma ShutdownWaits(s: State)
    requires Safe(s) && s.phase == Up && s.gcStarted && !s.gc.quit && s.shut == SOut && s.unreg == UOut
    ensures Next(s, Shutdown).Some? && Stopping(Next(s, Shutdown).value)
  {
    ShutdownGoes(s);
    StepSafe(s, Shutdown);
  }

  lemma ShutdownGoes(s: State)
    requires s.phase == Up && s.gcStarted && !s.gc.quit && s.shut == SOut && s.unreg == UOut
    ensures Next(s, Shutdown) == Some(s.(gc := s.gc.(quit := true), shut := SWait))
  {
  }

  /** Shutting down with a running GC thread ends only when that thread has ended. */
  lemma ShutdownStopsGc(s: State, ls: seq<Label>)
    requires Safe(s) && s.phase == Up && s.gcStarted && !s.gc.quit && s.shut == SOut && s.unreg == UOut
    requires Run(s, [Shutdown] + ls).Some?
    ensures var t := Run(s, [Shutdown] + ls).value;
            t.shut == SEnd ==> t.gc.pc.GcExited? && t.gc.waits == 1 && !t.gcStarted
  {
    ShutdownWaits(s);
    StoppingAlways();
    Runs.RunCons(Next, s, Shutdown, ls);
    Runs.RunKeeps(Next, Stopping, Next(s, Shutdown).value, ls);
  }

  lemma StaysIn(s: State, l: Label)
    requires s.unreg != UOut && Next(s, l).Some?
    ensures Next(s, l).value.unreg != UOut
  {
  }

  /** Nothing is stopped or released from s to t: not the provisioning thread, not
      the GC thread, and no resource. A shutdown that already waits may finish. */
  predicate Untouched(s: State, t: State) {
    && t.stop == s.stop && t.provTask == s.provTask
    && (s.prov.pc != Exited && !s.stop ==> t.prov.pc != Exited)
    && (t.gc.quit ==> s.gc.quit)
    && (s.gc.pc.GcRunning? && !s.gc.quit ==> t.gc.pc.GcRunning?)
    && (s.shut != SWait ==> t.shut != SWait && t.gc.waits == s.gc.waits)
    && t.res.tags == s.res.tags && t.res.buf == s.res.buf && t.res.major == s.res.major
    && t.res.disk.freed == s.res.disk.freed && t.res.proc.freed == s.res.proc.freed
  }

  lemma {:induction false} DownUntouched(s: State, ls: seq<Label>)
    requires s.unreg == UOut && s.phase == Down && Run(s, ls).Some?
    ensures var t := Run(s, ls).value;
            t.unreg == UOut && t.phase == Down && Untouched(s, t)
    decreases ls
  {
    if ls != [] {
      DownStays(s, ls[0]);
      DownUntouched(Next(s, ls[0]).value, ls[1..]);
    }
  }

  /** Outside unregister no thread is stopped and nothing is released. */
  lemma NothingYet(s: State)
    requires JoinInv(s) && TallyInv(s) && s.unreg == UOut
    ensures !s.stop && s.prov.pc != Exited
    ensures s.res.tags == s.res.buf == s.res.major == Tally(1, 0)
    ensures s.res.disk.freed == 0 && s.res.proc.freed == 0
  {
  }

  lemma AfterDevExit(s: State, after: seq<Label>)
    requires JoinInv(s) && TallyInv(s) && Run(s, [DevExit] + after).Some?
    ensures var t := Run(s, [DevExit] + after).value;
            && Untouched(s, t) && t.unreg == UOut && !t.stop && t.prov.pc != Exited
            && t.res.tags == t.res.buf == t.res.major == Tally(1, 0)
            && t.res.disk.freed == 0 && t.res.proc.freed == 0
  {
    Runs.RunCons(Next, s, DevExit, after);
    NothingYet(s);
    DownUntouched(s.(phase := Down), after);
  }

  /** The path through rknand_dev_exit never reaches the body of unregister: in no
      run is a thread stopped or a resource released after it. */
  lemma DevExitReleasesNothing(threadStarted: bool, before: seq<Label>, after: seq<Label>)
    requires Run(Registered(threadStarted), before + ([DevExit] + after)).Some?
    ensures Run(Registered(threadStarted), before).Some?
    ensures var s := Run(Registered(threadStarted), before).value;
            var t := Run(Registered(threadStarted), before + ([DevExit] + after)).value;
            && Untouched(s, t) && t.unreg == UOut && !t.stop && t.prov.pc != Exited
            && t.res.tags == t.res.buf == t.res.major == Tally(1, 0)
            && t.res.disk.freed == 0 && t.res.proc.freed == 0
  {
    var r := Registered(threadStarted);
    Runs.RunSplit(Next, r, before, [DevExit] + after);
    RegisteredSafe(threadStarted);
    RunSafe(r, before);
    AfterDevExit(Run(r, before).value, after);
  }

  lemma DownStays(s: State, l: Label)
    requires s.unreg == UOut && s.phase == Down && Next(s, l).Some?
    ensures var t := Next(s, l).value;
            t.unreg == UOut && t.phase == Down && Untouched(s, t)
  {
    match l
    case Prov(v) => StepMoves(s.prov, s.stop, v);
    case GcExit =>
    case Unregister =>
    case Shutdown =>
    case Initialise =>
    case DevExit =>
  }
}
