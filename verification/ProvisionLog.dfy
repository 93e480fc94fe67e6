/** What the provisioning thread leaves out: nothing, unless it is told to stop.
    rknand_provision_thread in drivers/nand-rk322x/rknand-port/rk_nand_blk.c. */
module ProvisionLog {
  import opened Wrappers
  import opened Provision

  // --------------------------------------------------------- what a trace contains

  /** The first read gave zero; a reinitialisation; a capacity that is not zero. */
  datatype Reads = Reads(blank: bool, reinit: bool, capacity: bool)

  /** A zero after the reinitialisation; loading the bad block table, with failure;
      making it; the low-level format. */
  datatype Formats = Formats(zero: bool, load: bool, loadFailed: bool, make: bool, format: bool)

  /** The disk came up; it was tried; the other users were tried. */
  datatype Users = Users(disk: bool, tried: bool, proc: bool, storage: bool, vendor: bool, gc: bool)

  function NoteRead(r: Reads, e: Event, first: bool): Reads {
    Reads(r.blank || (first && e == CapRead(0)), r.reinit || e.ReInit?, r.capacity || (e.CapRead? && e.v != 0))
  }

  function NoteFormat(f: Formats, e: Event, reinit: bool): Formats {
    Formats(f.zero || (reinit && e == CapRead(0)), f.load || e.LoadBbt?, f.loadFailed || (e.LoadBbt? && e.v != 0),
            f.make || e.MakeBbt?, f.format || e.LowFormat?)
  }

  function NoteUser(u: Users, e: Event): Users {
    Users(u.disk || e.DiskUp?, u.tried || e.DiskUp? || e.DiskFailed?, u.proc || e.ProcUp? || e.ProcFailed?,
          u.storage || e.StorageUp?, u.vendor || e.VendorUp? || e.VendorFailed?, u.gc || e.GcUp? || e.GcFailed?)
  }

  const NO_READS: Reads := Reads(false, false, false)
  const NO_FORMATS: Formats := Formats(false, false, false, false, false)
  const NO_USERS: Users := Users(false, false, false, false, false, false)

  // ---------------------------------------------------- what is done by each point

  /** The thread has a capacity exactly if it read one, reads on only without one, and
      reinitialises after a first zero. */
  predicate ToRead(pc: Pc, cap: int, r: Reads) {
    match pc
    case Cap => cap == 0 && r == NO_READS
    case CheckBlank => r == Reads(cap == 0, false, cap != 0)
    case CallReInit => cap == 0 && !r.capacity
    case Cap2 => cap == 0 && !r.capacity && r.reinit
    case CallLoadBbt => cap == 0 && !r.capacity && r.reinit
    case CheckMake => cap == 0 && !r.capacity && r.reinit
    case CallMakeBbt => cap == 0 && !r.capacity && r.reinit
    case CheckLow => cap == 0 && !r.capacity && r.reinit
    case CallLowFormat => cap == 0 && !r.capacity && r.reinit
    case Cap3 => cap == 0 && !r.capacity && r.reinit
    case RetryRead => cap == 0 && !r.capacity && r.reinit
    case _ => (r.capacity <==> cap != 0) && (r.blank || cap == 0 ==> r.reinit)
  }

  /** A zero after that leads to the table and the low-level format. */
  predicate ToFormat(pc: Pc, cap: int, lb: int, f: Formats) {
    match pc
    case Cap => f == NO_FORMATS
    case CheckBlank => f == NO_FORMATS
    case CallReInit => f == NO_FORMATS
    case Cap2 => f == NO_FORMATS
    case CheckFormat => f == NO_FORMATS.(zero := cap == 0)
    case CallLoadBbt => f == NO_FORMATS.(zero := true)
    case CheckMake => f.load && !f.make && !f.format && (f.loadFailed <==> lb != 0)
    case CallMakeBbt => f.load
    case CheckLow => f.load && (f.loadFailed ==> f.make)
    case CallLowFormat => f.load && (f.loadFailed ==> f.make)
    case Cap3 => Formatted(f)
    case RetryRead => Formatted(f)
    case _ => Formatted(f) || (cap != 0 && f == NO_FORMATS)
  }

  predicate Formatted(f: Formats) {
    f.load && (f.loadFailed ==> f.make) && f.format
  }

  /** A capacity leads to the disk, and the disk to everything else. */
  predicate ToUsers(pc: Pc, cap: int, u: Users) {
    match pc
    case AddDev => cap != 0 && u == NO_USERS
    case CreateProcfs => u == Users(true, true, false, false, false, false)
    case InitStorage => u == Users(true, true, true, false, false, false)
    case InitVendor => u == Users(true, true, true, true, false, false)
    case StartGc => u == Users(true, true, true, true, true, false)
    case FlagGc => AllTried(u)
    case Done => Finished(cap, u)
    case Idle => Finished(cap, u)
    case Exited => Finished(cap, u)
    case _ => u == NO_USERS
  }

  predicate AllTried(u: Users) {
    u == Users(true, true, true, true, true, true)
  }

  predicate Finished(cap: int, u: Users) {
    (cap == 0 && u == NO_USERS) || u == NO_USERS.(tried := true) || AllTried(u)
  }

  // ------------------------------------------------------------------ every step

  function NextCap(p: Thread, v: int): int {
    if ReadsCapacity(p.pc) then v else p.cap
  }

  function NextLb(p: Thread, v: int): int {
    if p.pc == CallLoadBbt || p.pc == CallMakeBbt then v else p.lb
  }

  function ReadMaybe(r: Reads, e: Option<Event>, first: bool): Reads {
    match e
    case None => r
    case Some(x) => NoteRead(r, x, first)
  }

  function FormatMaybe(f: Formats, e: Option<Event>, reinit: bool): Formats {
    match e
    case None => f
    case Some(x) => NoteFormat(f, x, reinit)
  }

  function UserMaybe(u: Users, e: Option<Event>): Users {
    match e
    case None => u
    case Some(x) => NoteUser(u, x)
  }

  lemma ReadStep(p: Thread, r: Reads, v: int)
    requires ToRead(p.pc, p.cap, r) && p.pc != Absent && NextPc(p, false, v).Some?
    ensures ToRead(NextPc(p, false, v).value, NextCap(p, v), ReadMaybe(r, Emitted(p.pc, v), p.pc == Cap))
  {
    match p.pc {
      case Cap =>
      case CheckBlank =>
      case CallReInit =>
      case Cap2 =>
      case CheckFormat =>
      case Cap3 =>
      case Retry =>
      case RetryRead =>
      case _ =>
    }
  }

  lemma FormatStep(p: Thread, r: Reads, f: Formats, v: int)
    requires ToRead(p.pc, p.cap, r) && ToFormat(p.pc, p.cap, p.lb, f) && p.pc != Absent && NextPc(p, false, v).Some?
    ensures ToFormat(NextPc(p, false, v).value, NextCap(p, v), NextLb(p, v), FormatMaybe(f, Emitted(p.pc, v), r.reinit))
  {
    match p.pc {
      case Cap =>
      case CheckBlank =>
      case CallReInit =>
      case Cap2 =>
      case CheckFormat =>
      case CallLoadBbt =>
      case CheckMake =>
      case CallMakeBbt =>
      case CheckLow =>
      case CallLowFormat =>
      case Cap3 =>
      case Retry =>
      case RetryRead =>
      case _ =>
    }
  }

  lemma UsersStep(p: Thread, u: Users, v: int)
    requires ToUsers(p.pc, p.cap, u) && p.pc != Absent && NextPc(p, false, v).Some?
    ensures ToUsers(NextPc(p, false, v).value, NextCap(p, v), UserMaybe(u, Emitted(p.pc, v)))
  {
    match p.pc {
      case Guard =>
      case AddDev =>
      case CreateProcfs =>
      case InitStorage =>
      case InitVendor =>
      case StartGc =>
      case FlagGc =>
      case _ =>
    }
  }

  // ------------------------------------------------------------- over the trace

  function ReadsOf(trace: seq<Event>): Reads {
    if trace == [] then NO_READS
    else NoteRead(ReadsOf(trace[..|trace| - 1]), trace[|trace| - 1], |trace| == 1)
  }

  function FormatsOf(trace: seq<Event>): Formats {
    if trace == [] then NO_FORMATS
    else
      var before := trace[..|trace| - 1];
      NoteFormat(FormatsOf(before), trace[|trace| - 1], ReadsOf(before).reinit)
  }

  function UsersOf(trace: seq<Event>): Users {
    if trace == [] then NO_USERS else NoteUser(UsersOf(trace[..|trace| - 1]), trace[|trace| - 1])
  }

  lemma LogGrows(trace: seq<Event>, e: Option<Event>)
    ensures ReadsOf(Appended(trace, e)) == ReadMaybe(ReadsOf(trace), e, trace == [])
    ensures FormatsOf(Appended(trace, e)) == FormatMaybe(FormatsOf(trace), e, ReadsOf(trace).reinit)
    ensures UsersOf(Appended(trace, e)) == UserMaybe(UsersOf(trace), e)
  {
    if e.Some? {
      assert (trace + [e.value])[..|trace|] == trace;
    }
  }

  predicate DoneInv(p: Thread) {
    && (p.pc == Cap <==> p.trace == [])
    && ToRead(p.pc, p.cap, ReadsOf(p.trace))
    && ToFormat(p.pc, p.cap, p.lb, FormatsOf(p.trace))
    && ToUsers(p.pc, p.cap, UsersOf(p.trace))
    && CountExact(p.pc, p.cap, p.attempt, CapReads(p.trace))
  }

  /** Without a capacity every read counts, and the thread gives up after ten retries. */
  predicate CountExact(pc: Pc, cap: int, attempt: nat, made: nat) {
    cap == 0 ==>
      && made == ReadsBefore(pc) + attempt - 1
      && (ReadsBefore(pc) < 3 ==> attempt == 1)
      && (pc == RetryRead || pc == Retry ==> attempt <= 11)
      && (pc == RetryRead ==> attempt <= 10)
      && (pc == Guard || Position(pc) <= 9 ==> attempt == 11)
  }

  lemma ExactStep(p: Thread, made: nat, r: Reads, v: int)
    requires CountExact(p.pc, p.cap, p.attempt, made) && ToRead(p.pc, p.cap, r)
    requires p.pc != Absent && NextPc(p, false, v).Some?
    ensures CountExact(NextPc(p, false, v).value, NextCap(p, v),
                       if p.pc == RetryRead then p.attempt + 1 else p.attempt,
                       made + if ReadsCapacity(p.pc) then 1 else 0)
  {
    match p.pc {
      case Cap =>
      case CheckBlank =>
      case Cap2 =>
      case CheckFormat =>
      case CheckLow =>
      case Cap3 =>
      case Retry =>
      case RetryRead =>
      case Guard =>
      case AddDev =>
      case _ =>
    }
  }

  lemma NeverBack(p: Thread, v: int)
    requires NextPc(p, false, v).Some?
    ensures NextPc(p, false, v) != Some(Cap) && (p.pc == Cap ==> Emitted(p.pc, v).Some?)
  {
  }

  /** Every step of a thread that is not told to stop keeps it. */
  lemma DoneStep(p: Thread, v: int)
    requires DoneInv(p) && p.pc != Absent && Step(p, false, v).Some?
    ensures DoneInv(Step(p, false, v).value)
  {
    NeverBack(p, v);
    LogGrows(p.trace, Emitted(p.pc, v));
    ReadsAppended(p.trace, p.pc, v);
    ReadStep(p, ReadsOf(p.trace), v);
    FormatStep(p, ReadsOf(p.trace), FormatsOf(p.trace), v);
    UsersStep(p, UsersOf(p.trace), v);
    ExactStep(p, CapReads(p.trace), ReadsOf(p.trace), v);
  }

  // --------------------------------------------------------- and what that means

  ghost predicate Loaded(trace: seq<Event>) {
    exists e :: e in trace && e.LoadBbt?
  }

  ghost predicate LoadFailed(trace: seq<Event>) {
    exists e :: e in trace && e.LoadBbt? && e.v != 0
  }

  ghost predicate DiskTried(trace: seq<Event>) {
    exists e :: e in trace && (e.DiskUp? || e.DiskFailed?)
  }

  ghost predicate ProcTried(trace: seq<Event>) {
    exists e :: e in trace && (e.ProcUp? || e.ProcFailed?)
  }

  ghost predicate VendorTried(trace: seq<Event>) {
    exists e :: e in trace && (e.VendorUp? || e.VendorFailed?)
  }

  ghost predicate GcTried(trace: seq<Event>) {
    exists e :: e in trace && (e.GcUp? || e.GcFailed?)
  }

  lemma {:induction false} ReadsMean(trace: seq<Event>)
    ensures ReadsOf(trace).blank <==> trace != [] && trace[0] == CapRead(0)
    ensures ReadsOf(trace).reinit <==> ReInit in trace
    ensures ReadsOf(trace).capacity <==> SawCapacity(trace, |trace|)
  {
    if trace != [] {
      var n := |trace| - 1;
      ReadsMean(trace[..n]);
      assert trace == trace[..n] + [trace[n]];
    }
  }

  lemma {:induction false} ZeroMeans(trace: seq<Event>)
    ensures FormatsOf(trace).zero <==> ReinitYieldedZero(trace, |trace|)
  {
    if trace != [] {
      var n := |trace| - 1;
      ZeroMeans(trace[..n]);
      ReadsMean(trace[..n]);
      assert forall i :: 0 <= i < n ==> trace[..n][i] == trace[i];
    }
  }

  lemma {:induction false} FormatsMean(trace: seq<Event>)
    ensures FormatsOf(trace).load <==> Loaded(trace)
    ensures FormatsOf(trace).loadFailed <==> LoadFailed(trace)
    ensures FormatsOf(trace).make <==> MakeBbt in trace
    ensures FormatsOf(trace).format <==> LowFormat in trace
  {
    if trace != [] {
      var n := |trace| - 1;
      FormatsMean(trace[..n]);
      assert trace == trace[..n] + [trace[n]];
    }
  }

  lemma {:induction false} UsersMean(trace: seq<Event>)
    ensures UsersOf(trace).disk <==> DiskUp in trace
    ensures UsersOf(trace).tried <==> DiskTried(trace)
    ensures UsersOf(trace).proc <==> ProcTried(trace)
    ensures UsersOf(trace).storage <==> StorageUp in trace
    ensures UsersOf(trace).vendor <==> VendorTried(trace)
    ensures UsersOf(trace).gc <==> GcTried(trace)
  {
    if trace != [] {
      var n := |trace| - 1;
      UsersMean(trace[..n]);
      assert trace == trace[..n] + [trace[n]];
    }
  }

  /** Everything a finished thread must have done: reinitialise a blank chip; after that
      still blank, load the table, make it if loading failed, and format; with a
      capacity, try the disk; with the disk, try every other user, and without it none;
      and without a capacity, read 13 times. */
  ghost predicate Thorough(trace: seq<Event>) {
    && (trace != [] && trace[0] == CapRead(0) ==> ReInit in trace)
    && (ReinitYieldedZero(trace, |trace|) ==> Loaded(trace) && LowFormat in trace)
    && (LoadFailed(trace) ==> MakeBbt in trace)
    && (SawCapacity(trace, |trace|) ==> DiskTried(trace))
    && (DiskUp in trace <==> ProcTried(trace))
    && (DiskUp in trace <==> StorageUp in trace)
    && (DiskUp in trace <==> VendorTried(trace))
    && (DiskUp in trace <==> GcTried(trace))
    && (!SawCapacity(trace, |trace|) ==> CapReads(trace) == 13)
  }

  lemma FinishedIsThorough(p: Thread)
    requires DoneInv(p) && (p.pc == Pc.Done || p.pc == Idle || p.pc == Exited)
    ensures Thorough(p.trace)
  {
    FlagsAtEnd(p.pc, p.cap, p.lb, p.attempt, CapReads(p.trace),
               ReadsOf(p.trace), FormatsOf(p.trace), UsersOf(p.trace));
    ReadsMean(p.trace);
    ZeroMeans(p.trace);
    FormatsMean(p.trace);
    UsersMean(p.trace);
  }

  lemma FlagsAtEnd(pc: Pc, cap: int, lb: int, attempt: nat, made: nat, r: Reads, f: Formats, u: Users)
    requires ToRead(pc, cap, r) && ToFormat(pc, cap, lb, f) && ToUsers(pc, cap, u) && CountExact(pc, cap, attempt, made)
    requires pc == Pc.Done || pc == Idle || pc == Exited
    ensures (r.blank ==> r.reinit) && (f.zero ==> f.load && f.format) && (f.loadFailed ==> f.make)
    ensures (r.capacity ==> u.tried) && u.disk == u.proc == u.storage == u.vendor == u.gc
    ensures !r.capacity ==> made == 13
  {
  }
}
