/** One container as the restart supervisor sees it (cmd/supervisor.go,
    internal/container/restart_guard.go and the parts of start.go, stop.go and create.go
    they drive): its persisted record, whether its recorded process tree is alive, and the
    supervisor's two bookkeeping entries.  Ticks and commands are atomic; every reading of
    the clock inside a tick is a separate number. */
module Supervision {
  import opened Wrappers

  datatype Status = Created | Running | Stopped

  datatype Policy = Never | Always | UnlessStopped | OnFailure | Unknown

  /** Durations are nanoseconds; `None` stands for an empty or unparsable setting. */
  datatype Config = Config(restart: Policy, restartDelay: Option<int>, maxAttempts: int,
                           window: Option<int>, detach: bool, removeOnExit: bool)

  /** The persisted state file.  `recorded` says that a process is recorded in it. */
  datatype Record = Record(config: Config, status: Status, recorded: bool, stoppedByUser: bool,
                           lastExitAt: Option<int>, lastStartedAt: Option<int>,
                           attempts: int, windowStart: Option<int>, blocked: bool)

  /** The entry of `managed`: absent, the zero time, or a point in time. */
  datatype Deadline = Unmanaged | Zero | At(t: int)

  datatype Slot = Slot(disk: Option<Record>, alive: bool, managed: Deadline, finalized: bool)

  const SECOND: int := 1_000_000_000
  const DEFAULT_MAX_ATTEMPTS: int := 5
  const DEFAULT_WINDOW: int := 600 * SECOND
  const STABLE_RUNTIME: int := 60 * SECOND

  function Delay(c: Config): (d: int)
    ensures d > 0
  {
    if c.restartDelay.Some? && c.restartDelay.value > 0 then c.restartDelay.value else SECOND
  }

  function MaxAttempts(c: Config): (m: nat)
    ensures m > 0
  {
    if c.maxAttempts <= 0 then DEFAULT_MAX_ATTEMPTS else c.maxAttempts
  }

  function Window(c: Config): (w: int)
    ensures w > 0
  {
    if c.window.Some? && c.window.value > 0 then c.window.value else DEFAULT_WINDOW
  }

  // ---------------------------------------------------------------- container transitions

  function ResetGuard(r: Record, now: int): Record {
    r.(attempts := 0, windowStart := Some(now), blocked := false)
  }

  predicate WindowExpired(r: Record, now: int) {
    r.windowStart.None? || now - r.windowStart.value >= Window(r.config)
  }

  /** The crash-loop guard: the new record and whether the restart is allowed. */
  function Allow(r: Record, now: int): (Record, bool) {
    if r.blocked then (r, false)
    else
      var r1 := if WindowExpired(r, now) then r.(windowStart := Some(now), attempts := 0) else r;
      if r1.attempts >= MaxAttempts(r.config) then (r1.(blocked := true), false)
      else (r1.(attempts := r1.attempts + 1), true)
  }

  function MarkStable(r: Record, now: int): Record {
    if r.lastStartedAt.Some? && now - r.lastStartedAt.value >= STABLE_RUNTIME then ResetGuard(r, now) else r
  }

  predicate ProcessAlive(r: Record, alive: bool) { r.recorded && alive }

  /** Every load of a state file goes through this. */
  function Normalize(r: Record, alive: bool): Record {
    if r.status == Running && !ProcessAlive(r, alive) then r.(status := Stopped, recorded := false) else r
  }

  predicate ShouldRestart(policy: Policy, exitCode: int, stoppedByUser: bool) {
    !stoppedByUser && (policy == Always || policy == UnlessStopped || (policy == OnFailure && exitCode != 0))
  }

  function FinalizeStopped(r: Record, now: int): Record {
    r.(status := Stopped, recorded := false, lastExitAt := Some(now))
  }

  /** Exit handling by the supervisor.  `MarkStable` runs after the save, on a copy that is dropped. */
  function HandleMainProcessExit(r: Record, now: int): Option<Record> {
    if !ShouldRestart(r.config.restart, 0, r.stoppedByUser) && r.config.removeOnExit then None
    else Some(FinalizeStopped(r, now))
  }

  /** Exit handling by the process that started the container. */
  function MonitorExit(r: Record, exitCode: int, now: int): Option<Record> {
    var stopped := FinalizeStopped(r, now);
    if ShouldRestart(r.config.restart, exitCode, r.stoppedByUser)
       && (!r.config.detach || r.config.restart == OnFailure) then
      Some(Allow(MarkStable(stopped, now), now).0)
    else if r.config.removeOnExit then None
    else Some(stopped)
  }

  predicate CanRestartAfterDelay(r: Record) { r.status == Stopped && !r.stoppedByUser }

  /** The state committed by a successful start.  A failed start saves nothing. */
  function Started(r: Record, now: int): Record {
    r.(status := Running, recorded := true, stoppedByUser := false, lastStartedAt := Some(now))
  }

  // ---------------------------------------------------------------- the supervisor's tick

  predicate Eligible(r: Record) {
    r.config.detach && !r.stoppedByUser && r.status != Running && !r.blocked
    && (r.config.restart == Always || r.config.restart == UnlessStopped)
  }

  /** One container in the exit-detection loop. */
  function FinalizeOne(s: Slot, exitAt: int): Slot {
    match s.disk
    case None => s.(finalized := false)
    case Some(r0) =>
      var r := Normalize(r0, s.alive);
      if !r.config.detach then s.(disk := Some(r))
      else if ProcessAlive(r, s.alive) then s.(disk := Some(r), finalized := false)
      else if s.finalized then s.(disk := Some(r))
      else s.(disk := HandleMainProcessExit(r, exitAt), finalized := true)
  }

  /** One container when the supervisor has reaped a child of its own: all state files are loaded, and
      if the child is `mine`, recorded in this one, its exit is handled without a note in `finalized`. */
  function ReapOne(s: Slot, at: int, mine: bool): Slot {
    match s.disk
    case None => s
    case Some(r0) =>
      var r := Normalize(r0, s.alive);
      s.(disk := if mine && r.recorded then HandleMainProcessExit(r, at) else Some(r))
  }

  /** Clock readings and outcomes of one container's turn in the adoption loop. */
  datatype Turn = Turn(seenAt: int, checkAt: int, guardAt: int, endAt: int, startOk: bool, removing: bool)

  /** What the adoption loop does with a container, and what it decided. */
  datatype Adoption = Adoption(slot: Slot, granted: bool, attempted: bool)

  /** The deadline the loop compares with the clock. */
  function DeadlineOf(r: Record, managed: Deadline, seenAt: int): Deadline {
    if managed.At? then managed
    else if r.lastExitAt.Some? then At(r.lastExitAt.value + Delay(r.config))
    else if managed.Unmanaged? then At(seenAt)
    else Zero
  }

  function AdoptOne(s: Slot, e: Turn): Adoption {
    match s.disk
    case None => Adoption(s, false, false)
    case Some(r0) =>
      var r := Normalize(r0, s.alive);
      var s := s.(disk := Some(r));
      if r.stoppedByUser || r.config.restart == Never then Adoption(s.(managed := Unmanaged), false, false)
      else if r.status == Running then
        Adoption(if r.config.detach then s.(managed := Zero) else s, false, false)
      else
        var deadline := DeadlineOf(r, s.managed, e.seenAt);
        var s := s.(managed := deadline);
        if (deadline.At? && e.checkAt < deadline.t) || !Eligible(r) then Adoption(s, false, false)
        else
          var (r1, ok) := Allow(r, e.guardAt);
          var s := s.(disk := Some(r1));
          if !ok then Adoption(s, false, false)
          else if e.removing then Adoption(s.(managed := Unmanaged), true, false)
          else if e.startOk then
            Adoption(Slot(Some(Started(r1, e.endAt)), true, Zero, false), true, true)
          else
            Adoption(s.(managed := At(e.endAt + Delay(r.config)), finalized := false), true, true)
  }

  // ---------------------------------------------------------------- user commands

  /** `Stop`: the slot afterwards and whether the container was put in StoppedByUser. */
  function UserStop(s: Slot): (Slot, bool) {
    match s.disk
    case None => (s, false)
    case Some(r0) =>
      var r := Normalize(r0, s.alive);
      if r.status == Running then
        (s.(disk := Some(r.(stoppedByUser := true, status := Stopped, recorded := false)), alive := false), true)
      else
        var s := s.(disk := Some(r), alive := s.alive && !r.recorded);
        if r.status == Stopped && r.config.restart != Never
        then (s.(disk := Some(r.(stoppedByUser := true))), true)
        else (s, false)
  }

  /** `start` and `restart`: the guard is reset, but only a successful start is saved. */
  function UserStart(s: Slot, now: int, ok: bool): Slot {
    match s.disk
    case None => s
    case Some(r0) =>
      var r := Normalize(r0, s.alive);
      if ok then s.(disk := Some(Started(ResetGuard(r, now), now)), alive := true) else s.(disk := Some(r))
  }

  // ---------------------------------------------------------------- runs

  /** A poll of the supervisor reaps its children one after the other, and then ticks. */
  datatype Event =
    | Reap(at: int, mine: bool)
    | Tick(exitAt: int, turn: Turn)
    | Launch(turn: Turn)                        // a new supervisor process: both maps start empty
    | Crash                                     // the process tree dies unobserved
    | MonitoredExit(exitAt: int, exitCode: int) // it dies and its starter handles the exit
    | MonitorRestart(at: int, ok: bool)         // the starter's delayed restart fires
    | Stop
    | Start(at: int, ok: bool)
    | Remove
    | Create(record: Record)

  predicate StartCommand(e: Event) { e.Start? || e.Create? }

  predicate UserCommand(e: Event) { StartCommand(e) || e.Stop? || e.Remove? }

  function BeforeAdoption(s: Slot, e: Event): Slot
    requires e.Tick? || e.Launch?
  {
    if e.Tick? then FinalizeOne(s, e.exitAt) else s.(managed := Unmanaged, finalized := false)
  }

  /** What the adoption loop does in this event, if the event contains one. */
  function AdoptionIn(s: Slot, e: Event): Adoption {
    if e.Tick? || e.Launch? then AdoptOne(BeforeAdoption(s, e), e.turn) else Adoption(s, false, false)
  }

  /** A delayed restart belongs to foreground and on-failure containers and re-reads the state file. */
  predicate MonitorStarts(s: Slot) {
    s.disk.Some? && CanRestartAfterDelay(Normalize(s.disk.value, s.alive))
    && (!s.disk.value.config.detach || s.disk.value.config.restart == OnFailure)
  }

  function Step(s: Slot, e: Event): Slot {
    match e
    case Reap(at, mine) => ReapOne(s, at, mine)
    case Tick(_, _) => AdoptionIn(s, e).slot
    case Launch(_) => AdoptionIn(s, e).slot
    case Crash => s.(alive := false)
    case MonitoredExit(exitAt, code) =>
      if s.disk.Some? then s.(alive := false, disk := MonitorExit(s.disk.value, code, exitAt)) else s.(alive := false)
    case MonitorRestart(at, ok) =>
      if MonitorStarts(s) && ok
      then s.(disk := Some(Started(Normalize(s.disk.value, s.alive), at)), alive := true)
      else s
    case Stop => UserStop(s).0
    case Start(at, ok) => UserStart(s, at, ok)
    case Remove => s.(disk := None, alive := false)
    case Create(record) => if s.disk.None? then s.(disk := Some(record), alive := false) else s
  }

  /** Some process other than a user command tries to start the container in this step. */
  predicate AutoStarts(s: Slot, e: Event) {
    AdoptionIn(s, e).attempted || (e.MonitorRestart? && MonitorStarts(s))
  }

  function After(s: Slot, run: seq<Event>): Slot
    decreases |run|
  {
    if run == [] then s else After(Step(s, run[0]), run[1..])
  }

  // ---------------------------------------------------------------- clocks

  ghost predicate TurnOrdered(lo: int, e: Turn) {
    lo <= e.seenAt <= e.checkAt <= e.guardAt <= e.endAt
  }

  /** The readings of `e` follow `lo` and each other. */
  ghost predicate Ordered(lo: int, e: Event) {
    match e
    case Reap(at, _) => lo <= at
    case Tick(exitAt, turn) => lo <= exitAt && TurnOrdered(exitAt, turn)
    case Launch(turn) => TurnOrdered(lo, turn)
    case MonitoredExit(exitAt, _) => lo <= exitAt
    case MonitorRestart(at, _) => lo <= at
    case Start(at, _) => lo <= at
    case _ => true
  }

  ghost function ClockAfter(lo: int, e: Event): int {
    match e
    case Reap(at, _) => at
    case Tick(_, turn) => turn.endAt
    case Launch(turn) => turn.endAt
    case MonitoredExit(exitAt, _) => exitAt
    case MonitorRestart(at, _) => at
    case Start(at, _) => at
    case _ => lo
  }

  ghost predicate Chronological(lo: int, run: seq<Event>)
    decreases |run|
  {
    run == [] || (Ordered(lo, run[0]) && Chronological(ClockAfter(lo, run[0]), run[1..]))
  }

  ghost predicate NoUserCommand(run: seq<Event>) { forall e <- run :: !UserCommand(e) }

  /** A container the supervisor may restart. */
  predicate Supervised(c: Config) { c.detach && (c.restart == Always || c.restart == UnlessStopped) }

  // ---------------------------------------------------------------- user stop is final

  ghost predicate StoppedByUser(s: Slot) { s.disk.None? || s.disk.value.stoppedByUser }

  lemma {:induction false} StoppedStepStays(s: Slot, e: Event)
    requires StoppedByUser(s) && !StartCommand(e)
    ensures StoppedByUser(Step(s, e)) && !AutoStarts(s, e) && (Step(s, e).alive ==> s.alive)
  {
  }

  lemma {:induction false} StoppedRunStays(s: Slot, run: seq<Event>, i: nat)
    requires StoppedByUser(s) && (forall e <- run :: !StartCommand(e)) && i < |run|
    ensures !AutoStarts(After(s, run[..i]), run[i])
    ensures StoppedByUser(After(s, run[..i + 1]))
    ensures After(s, run[..i + 1]).alive ==> s.alive
    decreases i
  {
    StoppedStepStays(s, run[0]);
    assert run[..i + 1][1..] == run[1..][..i];
    assert run[..i + 1][0] == run[0];
    if i == 0 {
      assert run[..0] == [] && run[1..][..0] == [];
      assert After(Step(s, run[0]), []) == Step(s, run[0]);
    } else {
      assert run[..i][1..] == run[1..][..i - 1] && run[..i][0] == run[0];
      StoppedRunStays(Step(s, run[0]), run[1..], i - 1);
    }
  }

  /** Once `Stop` has put a container in StoppedByUser, no later step of any run tries to start
      it and no process of it appears, until an explicit start-type command. */
  lemma {:induction false} UserStopIsFinal(s: Slot, run: seq<Event>, i: nat)
    requires UserStop(s).1 && (forall e <- run :: !StartCommand(e)) && i < |run|
    ensures !AutoStarts(After(Step(s, Stop), run[..i]), run[i])
    ensures StoppedByUser(After(Step(s, Stop), run[..i + 1]))
    ensures After(Step(s, Stop), run[..i + 1]).alive ==> s.alive
  {
    StoppedRunStays(Step(s, Stop), run, i);
  }

  // ---------------------------------------------------------------- pacing

  /** A supervised start attempt: when its deadline was checked and when it ended. */
  datatype Attempt = Attempt(checkAt: int, endAt: int)

  function Attempts(s: Slot, run: seq<Event>): seq<Attempt>
    decreases |run|
  {
    if run == [] then []
    else (if AdoptionIn(s, run[0]).attempted
          then [Attempt(run[0].turn.checkAt, run[0].turn.endAt)] else [])
         + Attempts(Step(s, run[0]), run[1..])
  }

  ghost predicate Paced(xs: seq<Attempt>, delay: int) {
    forall i :: 0 <= i < |xs| - 1 ==> xs[i + 1].checkAt >= xs[i].endAt + delay
  }

  /** Since the attempt that ended at `a`: the deadline is late enough, or it will be
      recomputed from an exit seen after `a`. */
  ghost predicate WaitsSince(s: Slot, a: int, c: Config) {
    s.disk.Some? ==>
      var r := s.disk.value;
      && r.config == c
      && (!r.stoppedByUser && s.managed.At? ==> s.managed.t >= a + Delay(c) && r.status != Running)
      && (!r.stoppedByUser && !s.managed.At? ==>
            (r.lastExitAt.Some? && r.lastExitAt.value >= a)
            || (s.managed.Zero? && r.status == Running && r.recorded && !s.finalized))
  }

  /** The death of the process started by the attempt was seen when the file was loaded, and the
      exit will be put on file by the next tick. */
  ghost predicate Unseen(s: Slot, c: Config) {
    s.disk.Some? && s.managed.Zero? && !s.finalized
    && s.disk.value.config == c && s.disk.value.status != Running && !s.disk.value.recorded
  }

  /** Neither a user command, nor one seen half way, nor a change of supervisor process. */
  ghost predicate Unattended(e: Event) {
    !UserCommand(e) && !e.Launch? && (e.Tick? ==> !e.turn.removing)
  }

  /** After exit detection a container of this kind is alive and running, or its exit is on file. */
  lemma {:induction false} FinalizeKeepsWaiting(s: Slot, exitAt: int, a: int, c: Config)
    requires Supervised(c) && a <= exitAt && (WaitsSince(s, a, c) || Unseen(s, c))
    ensures WaitsSince(FinalizeOne(s, exitAt), a, c)
    ensures FinalizeOne(s, exitAt).disk.Some? ==>
              var r := FinalizeOne(s, exitAt).disk.value;
              r.status == Running ==> ProcessAlive(r, s.alive) && !FinalizeOne(s, exitAt).finalized
  {
  }

  lemma {:induction false} AdoptKeepsWaiting(s: Slot, e: Turn, a: int, c: Config)
    requires Supervised(c) && TurnOrdered(a, e) && !e.removing && WaitsSince(s, a, c)
    requires s.disk.Some? && s.disk.value.status == Running ==> ProcessAlive(s.disk.value, s.alive) && !s.finalized
    ensures AdoptOne(s, e).attempted ==>
              e.checkAt >= a + Delay(c) && WaitsSince(AdoptOne(s, e).slot, e.endAt, c)
    ensures !AdoptOne(s, e).attempted ==> WaitsSince(AdoptOne(s, e).slot, a, c)
  {
    if s.disk.Some? {
      var r := Normalize(s.disk.value, s.alive);
      assert r == s.disk.value;
    }
  }

  /** Reaping a child of its own or another one, the supervisor writes the exit, or leaves it to the tick. */
  lemma {:induction false} ReapKeepsWaiting(s: Slot, at: int, mine: bool, a: int, c: Config)
    requires a <= at && (WaitsSince(s, a, c) || Unseen(s, c))
    ensures WaitsSince(ReapOne(s, at, mine), a, c) || Unseen(ReapOne(s, at, mine), c)
  {
  }

  lemma {:induction false} WaitingStep(s: Slot, e: Event, a: int, lo: int, c: Config)
    requires Supervised(c) && Unattended(e) && Ordered(lo, e) && a <= lo && (WaitsSince(s, a, c) || Unseen(s, c))
    ensures AdoptionIn(s, e).attempted ==>
              e.turn.checkAt >= a + Delay(c) && WaitsSince(Step(s, e), e.turn.endAt, c)
    ensures !AdoptionIn(s, e).attempted ==> WaitsSince(Step(s, e), a, c) || Unseen(Step(s, e), c)
  {
    if e.Reap? {
      ReapKeepsWaiting(s, e.at, e.mine, a, c);
    }
    if e.Tick? {
      FinalizeKeepsWaiting(s, e.exitAt, a, c);
      AdoptKeepsWaiting(FinalizeOne(s, e.exitAt), e.turn, a, c);
    }
  }

  lemma {:induction false} UnattendedKeepsConfig(s: Slot, e: Event, c: Config)
    requires !UserCommand(e) && (s.disk.Some? ==> s.disk.value.config == c)
    ensures Step(s, e).disk.Some? ==> Step(s, e).disk.value.config == c
  {
    if e.Tick? || e.Launch? {
      var s1 := BeforeAdoption(s, e);
      assert s1.disk.Some? ==> s1.disk.value.config == c;
      AdoptKeepsConfig(s1, e.turn, c);
    }
  }

  lemma {:induction false} AdoptKeepsConfig(s: Slot, e: Turn, c: Config)
    requires s.disk.Some? ==> s.disk.value.config == c
    ensures AdoptOne(s, e).slot.disk.Some? ==> AdoptOne(s, e).slot.disk.value.config == c
  {
  }

  lemma {:induction false} AttemptWaits(s: Slot, e: Turn, c: Config)
    requires s.disk.Some? && s.disk.value.config == c && AdoptOne(s, e).attempted
    ensures Supervised(c) && WaitsSince(AdoptOne(s, e).slot, e.endAt, c)
  {
    assert Eligible(Normalize(s.disk.value, s.alive));
  }

  lemma {:induction false} AttemptStartsWaiting(s: Slot, e: Event, c: Config)
    requires s.disk.Some? ==> s.disk.value.config == c
    requires AdoptionIn(s, e).attempted
    ensures Supervised(c) && WaitsSince(Step(s, e), e.turn.endAt, c)
  {
    AttemptWaits(BeforeAdoption(s, e), e.turn, c);
  }

  // ---------------------------------------------------------------- pacing across supervisor processes

  /** No supervised start follows without a user command. */
  ghost predicate Inert(s: Slot) {
    StoppedByUser(s) || s.disk.value.blocked
  }

  /** The state file tells a new supervisor process about the attempt that ended at `a`: it holds
      a later exit, or the process started by the attempt is still there. */
  ghost predicate OnFile(s: Slot, a: int) {
    s.disk.Some? &&
    var r := s.disk.value;
    || (r.lastExitAt.Some? && r.lastExitAt.value >= a)
    || (r.status == Running && ProcessAlive(r, s.alive))
  }

  /** A supervisor process may be replaced at time `lo` without breaking the pace. */
  ghost predicate SafeRelaunch(s: Slot, a: int, lo: int, c: Config) {
    OnFile(s, a) || Inert(s) || lo >= a + Delay(c)
  }

  /** Neither a user command nor one seen half way. */
  ghost predicate Automatic(e: Event) {
    !UserCommand(e) && ((e.Tick? || e.Launch?) ==> !e.turn.removing)
  }

  ghost function LastEnd(s: Slot, e: Event, a: Option<int>): Option<int> {
    if AdoptionIn(s, e).attempted then Some(e.turn.endAt) else a
  }

  /** Every supervisor process that follows an attempt comes at a safe moment; `a` is when the
      last attempt ended. */
  ghost predicate SafeRelaunches(s: Slot, run: seq<Event>, a: Option<int>, lo: int, c: Config)
    decreases |run|
  {
    run == [] ||
    (var e := run[0];
     && (e.Launch? && a.Some? ==> SafeRelaunch(s, a.value, lo, c))
     && SafeRelaunches(Step(s, e), run[1..], LastEnd(s, e, a), ClockAfter(lo, e), c))
  }

  /** The next supervised attempt, if any, cannot come earlier than the delay after `a`. */
  ghost predicate Quiet(s: Slot, a: int, lo: int, c: Config) {
    WaitsSince(s, a, c) || Unseen(s, c) || Inert(s) || lo >= a + Delay(c)
  }

  lemma {:induction false} InertStays(s: Slot, e: Event, c: Config)
    requires Supervised(c) && (s.disk.Some? ==> s.disk.value.config == c) && Automatic(e) && Inert(s)
    ensures Inert(Step(s, e)) && !AdoptionIn(s, e).attempted
  {
    if StoppedByUser(s) {
      StoppedStepStays(s, e);
    } else if e.Tick? || e.Launch? {
      var s1 := BeforeAdoption(s, e);
      assert s1.disk.Some? ==> s1.disk.value.blocked;
    }
  }

  /** What a launch leaves behind when the file tells it about the last attempt. */
  lemma {:induction false} LaunchWaits(s: Slot, turn: Turn, a: int, c: Config)
    requires Supervised(c) && TurnOrdered(a, turn) && !turn.removing
    requires s.disk.Some? && s.disk.value.config == c && OnFile(s, a)
    ensures AdoptionIn(s, Launch(turn)).attempted ==> turn.checkAt >= a + Delay(c)
    ensures !AdoptionIn(s, Launch(turn)).attempted ==> WaitsSince(Step(s, Launch(turn)), a, c)
  {
  }

  lemma {:induction false} QuietStep(s: Slot, e: Event, a: int, lo: int, c: Config)
    requires Supervised(c) && (s.disk.Some? ==> s.disk.value.config == c)
    requires Automatic(e) && Ordered(lo, e) && a <= lo && Quiet(s, a, lo, c)
    requires e.Launch? ==> SafeRelaunch(s, a, lo, c)
    ensures AdoptionIn(s, e).attempted ==> e.turn.checkAt >= a + Delay(c)
    ensures !AdoptionIn(s, e).attempted ==> Quiet(Step(s, e), a, ClockAfter(lo, e), c)
  {
    if Inert(s) {
      InertStays(s, e, c);
    } else if lo < a + Delay(c) {
      if e.Launch? {
        LaunchWaits(s, e.turn, a, c);
      } else {
        WaitingStep(s, e, a, lo, c);
      }
    }
  }

  /** The pace of a run behind an attempt that ended at `a`. */
  lemma {:induction false} QuietIsPaced(s: Slot, run: seq<Event>, a: int, lo: int, c: Config)
    requires Supervised(c) && (s.disk.Some? ==> s.disk.value.config == c)
    requires (forall e <- run :: Automatic(e)) && Chronological(lo, run)
    requires a <= lo && Quiet(s, a, lo, c) && SafeRelaunches(s, run, Some(a), lo, c)
    ensures Paced([Attempt(a, a)] + Attempts(s, run), Delay(c))
    decreases |run|
  {
    if run != [] {
      var e := run[0];
      assert e in run;
      UnattendedKeepsConfig(s, e, c);
      QuietStep(s, e, a, lo, c);
      var tail := Attempts(Step(s, e), run[1..]);
      if AdoptionIn(s, e).attempted {
        var b := e.turn.endAt;
        AttemptStartsWaiting(s, e, c);
        QuietIsPaced(Step(s, e), run[1..], b, b, c);
        assert Attempts(s, run) == [Attempt(e.turn.checkAt, b)] + tail;
        PacedBehind(a, e.turn.checkAt, b, tail, Delay(c));
      } else {
        QuietIsPaced(Step(s, e), run[1..], a, ClockAfter(lo, e), c);
        assert Attempts(s, run) == tail;
      }
    }
  }

  /** Only when the second attempt ended matters for those that follow it. */
  lemma {:induction false} PacedBehind(a: int, checkAt: int, b: int, tail: seq<Attempt>, delay: int)
    requires checkAt >= a + delay && Paced([Attempt(b, b)] + tail, delay)
    ensures Paced([Attempt(checkAt, b)] + tail, delay)
    ensures Paced([Attempt(a, a)] + ([Attempt(checkAt, b)] + tail), delay)
  {
    var shorter, rest := [Attempt(b, b)] + tail, [Attempt(checkAt, b)] + tail;
    forall i | 0 <= i < |rest| - 1
      ensures rest[i + 1].checkAt >= rest[i].endAt + delay
    {
      assert shorter[i + 1].checkAt >= shorter[i].endAt + delay;
    }
    var all := [Attempt(a, a)] + rest;
    forall i | 0 <= i < |all| - 1
      ensures all[i + 1].checkAt >= all[i].endAt + delay
    {
      if i > 0 {
        assert rest[i - 1 + 1].checkAt >= rest[i - 1].endAt + delay;
      }
    }
  }

  /** Without user commands every supervised start attempt, successful or failed, is checked at
      least the restart delay after the previous one ended, from any state the run may begin in
      and across any number of supervisor processes that come at safe moments. */
  lemma {:induction false} StartsArePaced(s: Slot, run: seq<Event>, lo: int, c: Config)
    requires s.disk.Some? ==> s.disk.value.config == c
    requires (forall e <- run :: Automatic(e)) && Chronological(lo, run)
    requires SafeRelaunches(s, run, None, lo, c)
    ensures Paced(Attempts(s, run), Delay(c))
    decreases |run|
  {
    if run != [] {
      var e := run[0];
      assert e in run;
      UnattendedKeepsConfig(s, e, c);
      var tail := Attempts(Step(s, e), run[1..]);
      if AdoptionIn(s, e).attempted {
        var b := e.turn.endAt;
        AttemptStartsWaiting(s, e, c);
        QuietIsPaced(Step(s, e), run[1..], b, b, c);
        assert Attempts(s, run) == [Attempt(e.turn.checkAt, b)] + tail;
        PacedBehind(e.turn.checkAt - Delay(c), e.turn.checkAt, b, tail, Delay(c));
      } else {
        StartsArePaced(Step(s, e), run[1..], ClockAfter(lo, e), c);
        assert Attempts(s, run) == tail;
      }
    }
  }

  lemma {:induction false} NoLaunchIsSafe(s: Slot, run: seq<Event>, a: Option<int>, lo: int, c: Config)
    requires forall e <- run :: Unattended(e)
    ensures SafeRelaunches(s, run, a, lo, c)
    decreases |run|
  {
    if run != [] {
      assert run[0] in run;
      NoLaunchIsSafe(Step(s, run[0]), run[1..], LastEnd(s, run[0], a), ClockAfter(lo, run[0]), c);
    }
  }

  /** In the life of one supervisor process nothing more is needed. */
  lemma {:induction false} SupervisedStartsArePaced(s: Slot, run: seq<Event>, lo: int, c: Config)
    requires s.disk.Some? ==> s.disk.value.config == c
    requires (forall e <- run :: Unattended(e)) && Chronological(lo, run)
    ensures Paced(Attempts(s, run), Delay(c))
  {
    NoLaunchIsSafe(s, run, None, lo, c);
    StartsArePaced(s, run, lo, c);
  }

  /** Whatever a supervisor process launched at `lo` or later does first, and whatever follows,
      is paced behind an attempt that ended at `a`. */
  ghost predicate PacedAfterLaunch(s: Slot, a: int, lo: int, c: Config) {
    forall turn: Turn, run: seq<Event> :: PacedBehindLaunch(s, turn, run, a, lo, c)
  }

  ghost predicate PacedBehindLaunch(s: Slot, turn: Turn, run: seq<Event>, a: int, lo: int, c: Config) {
    TurnOrdered(lo, turn) && !turn.removing && (forall e <- run :: Unattended(e)) && Chronological(turn.endAt, run)
    ==> Paced([Attempt(a, a)] + Attempts(s, [Launch(turn)] + run), Delay(c))
  }

  /** A relaunch keeps the pace behind an attempt if and only if it comes at a safe moment. */
  lemma {:induction false} RelaunchIsPacedIff(s: Slot, a: int, lo: int, c: Config)
    requires Supervised(c) && (s.disk.Some? ==> s.disk.value.config == c) && a <= lo
    ensures PacedAfterLaunch(s, a, lo, c) <==> SafeRelaunch(s, a, lo, c)
  {
    if SafeRelaunch(s, a, lo, c) {
      forall turn: Turn, run: seq<Event>
        ensures PacedBehindLaunch(s, turn, run, a, lo, c)
      {
        if TurnOrdered(lo, turn) && !turn.removing && (forall e <- run :: Unattended(e))
           && Chronological(turn.endAt, run) {
          SafeLaunchIsPaced(s, turn, run, a, lo, c);
        }
      }
    } else {
      var turn := EarlyTurn(s.disk.value, a, lo);
      EarlyTurnAttempts(s, a, lo, c);
      var xs := [Attempt(a, a)] + Attempts(s, [Launch(turn)] + []);
      assert ([Launch(turn)] + [])[0] == Launch(turn);
      assert xs[0] == Attempt(a, a) && xs[0 + 1] == Attempt(turn.checkAt, turn.endAt);
      assert !PacedBehindLaunch(s, turn, [], a, lo, c);
    }
  }

  lemma {:induction false} SafeLaunchIsPaced(s: Slot, turn: Turn, run: seq<Event>, a: int, lo: int, c: Config)
    requires Supervised(c) && (s.disk.Some? ==> s.disk.value.config == c) && a <= lo
    requires TurnOrdered(lo, turn) && !turn.removing && SafeRelaunch(s, a, lo, c)
    requires (forall e <- run :: Unattended(e)) && Chronological(turn.endAt, run)
    ensures Paced([Attempt(a, a)] + Attempts(s, [Launch(turn)] + run), Delay(c))
  {
    var e, all := Launch(turn), [Launch(turn)] + run;
    assert all[0] == e && all[1..] == run;
    var s1 := Step(s, e);
    UnattendedKeepsConfig(s, e, c);
    if Inert(s) {
      InertStays(s, e, c);
    } else if lo < a + Delay(c) {
      LaunchWaits(s, turn, a, c);
    }
    var tail := Attempts(s1, run);
    if AdoptionIn(s, e).attempted {
      var b := turn.endAt;
      AttemptStartsWaiting(s, e, c);
      NoLaunchIsSafe(s1, run, Some(b), b, c);
      QuietIsPaced(s1, run, b, b, c);
      assert Attempts(s, all) == [Attempt(turn.checkAt, b)] + tail;
      PacedBehind(a, turn.checkAt, b, tail, Delay(c));
    } else {
      NoLaunchIsSafe(s1, run, Some(a), turn.endAt, c);
      QuietIsPaced(s1, run, a, turn.endAt, c);
      assert Attempts(s, all) == tail;
    }
  }

  /** A turn just before the delay is over, with the guard asked in a new window. */
  ghost function EarlyTurn(r: Record, a: int, lo: int): Turn {
    var checkAt := a + Delay(r.config) - 1;
    var expiry := if r.windowStart.Some? then r.windowStart.value + Window(r.config) else checkAt;
    var guardAt := if expiry > checkAt then expiry else checkAt;
    Turn(lo, checkAt, guardAt, guardAt, true, false)
  }

  lemma {:induction false} EarlyTurnAttempts(s: Slot, a: int, lo: int, c: Config)
    requires Supervised(c) && (s.disk.Some? ==> s.disk.value.config == c) && a <= lo
    requires !SafeRelaunch(s, a, lo, c)
    ensures s.disk.Some?
    ensures var turn := EarlyTurn(s.disk.value, a, lo);
            TurnOrdered(lo, turn) && !turn.removing && turn.checkAt < a + Delay(c)
            && AdoptionIn(s, Launch(turn)).attempted
  {
    var r := Normalize(s.disk.value, s.alive);
    var turn := EarlyTurn(s.disk.value, a, lo);
    assert Eligible(r) && r.status != Running;
    assert Allow(r, turn.guardAt).1;
  }

  /** A relaunched supervisor adopts before it polls for exits, so it paces from the last exit
      on file and not from the last attempt: it may start at once exactly when that exit is
      missing or at least the delay ago, and otherwise leaves the deadline counted from that
      exit to the next tick, even if the tick finds a later one. */
  lemma {:induction false} LaunchPacesFromLastExit(s: Slot, turn: Turn)
    requires s.disk.Some? && TurnOrdered(turn.seenAt, turn) && Eligible(Normalize(s.disk.value, s.alive))
    requires Allow(Normalize(s.disk.value, s.alive), turn.guardAt).1 && !turn.removing
    ensures AdoptionIn(s, Launch(turn)).attempted <==>
              (s.disk.value.lastExitAt.Some? ==>
                 turn.checkAt >= s.disk.value.lastExitAt.value + Delay(s.disk.value.config))
    ensures !AdoptionIn(s, Launch(turn)).attempted ==>
              Step(s, Launch(turn)).managed == At(s.disk.value.lastExitAt.value + Delay(s.disk.value.config))
  {
  }

  lemma {:induction false} FirstEvent(s: Slot, e: Event, run: seq<Event>)
    ensures Attempts(s, [e] + run) ==
              (if AdoptionIn(s, e).attempted then [Attempt(e.turn.checkAt, e.turn.endAt)] else [])
              + Attempts(Step(s, e), run)
  {
    assert ([e] + run)[0] == e && ([e] + run)[1..] == run;
  }

  lemma {:induction false} FirstReading(lo: int, e: Event, run: seq<Event>)
    requires Ordered(lo, e) && Chronological(ClockAfter(lo, e), run)
    ensures Chronological(lo, [e] + run)
  {
    assert ([e] + run)[0] == e && ([e] + run)[1..] == run;
  }

  /** Two attempts closer than the delay, with events between them that attempt nothing. */
  lemma {:induction false} CloseAttempts(s: Slot, e: Event, s1: Slot, e1: Event, s2: Slot, later: seq<Event>, x: Attempt, delay: int)
    requires AdoptionIn(s, e).attempted && s1 == Step(s, e)
    requires !AdoptionIn(s1, e1).attempted && s2 == Step(s1, e1)
    requires Attempts(s2, later) == [x] && x.checkAt < e.turn.endAt + delay
    ensures !Paced(Attempts(s, [e] + ([e1] + later)), delay)
  {
    FirstEvent(s, e, [e1] + later);
    FirstEvent(s1, e1, later);
    var xs := Attempts(s, [e] + ([e1] + later));
    assert xs == [Attempt(e.turn.checkAt, e.turn.endAt), x];
    assert xs[0 + 1].checkAt < xs[0].endAt + delay;
  }

  /** A turn without any waiting. */
  ghost function TurnAt(t: int, startOk: bool): Turn { Turn(t, t, t, t, startOk, false) }

  /** A stopped container whose deadline `t` has come, and whose last exit on file is `x`. */
  ghost function DueSlot(c: Config, x: int, t: int): Slot {
    Slot(Some(Record(c, Stopped, false, false, Some(x), None, 0, None, false)), false, At(t), true)
  }

  /** The same container after its start at `t`, the death of its process, and no poll since. */
  ghost function DeadSlot(c: Config, x: int, t: int): Slot {
    Slot(Some(Record(c, Running, true, false, Some(x), Some(t), 1, Some(t), false)), false, Zero, false)
  }

  lemma {:induction false} StartedAndDead(c: Config, x: int, t: int)
    requires Supervised(c)
    ensures AdoptionIn(DueSlot(c, x, t), Tick(t, TurnAt(t, true))).attempted
    ensures Step(Step(DueSlot(c, x, t), Tick(t, TurnAt(t, true))), Crash) == DeadSlot(c, x, t)
  {
    var s := DueSlot(c, x, t);
    assert FinalizeOne(s, t) == s;
    assert Allow(s.disk.value, t) == (s.disk.value.(attempts := 1, windowStart := Some(t)), true);
  }

  /** A supervisor process launched at `t` finds an exit that is a delay old. */
  lemma {:induction false} EarlyLaunch(c: Config, t: int) returns (launch: Event)
    requires Supervised(c)
    ensures launch.Launch? && !UserCommand(launch)
    ensures Chronological(t, [launch] + []) && launch.turn.checkAt < t + Delay(c)
    ensures Attempts(DeadSlot(c, t - Delay(c), t), [launch] + []) == [Attempt(launch.turn.checkAt, launch.turn.endAt)]
  {
    var dead := DeadSlot(c, t - Delay(c), t);
    launch := Launch(EarlyTurn(dead.disk.value, t, t));
    EarlyTurnAttempts(dead, t, t, c);
    FirstReading(t, launch, []);
    FirstEvent(dead, launch, []);
  }

  /** So across a relaunch the pacing can fail, for every supervised configuration: the exit after
      the last start was not polled yet. */
  lemma {:induction false} RelaunchCanBreakPacing(c: Config, t: int) returns (s: Slot, ok: Event, launch: Event)
    requires Supervised(c)
    ensures s.disk.Some? && s.disk.value.config == c && ok.Tick? && launch.Launch?
    ensures NoUserCommand([ok] + ([Crash] + ([launch] + [])))
    ensures Chronological(t, [ok] + ([Crash] + ([launch] + [])))
    ensures !Paced(Attempts(s, [ok] + ([Crash] + ([launch] + []))), Delay(c))
  {
    s, ok := DueSlot(c, t - Delay(c), t), Tick(t, TurnAt(t, true));
    launch := EarlyLaunch(c, t);
    FirstReading(t, Crash, [launch] + []);
    FirstReading(t, ok, [Crash] + ([launch] + []));
    StartedAndDead(c, t - Delay(c), t);
    CloseAttempts(s, ok, Step(s, ok), Crash, DeadSlot(c, t - Delay(c), t), [launch] + [],
                  Attempt(launch.turn.checkAt, launch.turn.endAt), Delay(c));
  }

  /** The tick that follows a relaunch at `t` uses the deadline of the exit before `t`. */
  lemma {:induction false} StaleDeadline(c: Config, t: int) returns (launch: Event, last: Event)
    requires Supervised(c) && Delay(c) > 1
    ensures launch.Launch? && last.Tick? && !UserCommand(launch) && !UserCommand(last)
    ensures Chronological(t, [launch] + ([last] + [])) && last.turn.checkAt < t + Delay(c)
    ensures !AdoptionIn(DeadSlot(c, t - 1, t), launch).attempted
    ensures Attempts(DeadSlot(c, t - 1, t), [launch] + ([last] + [])) == [Attempt(last.turn.checkAt, last.turn.endAt)]
  {
    var dead := DeadSlot(c, t - 1, t);
    launch := Launch(TurnAt(t, true));
    var turn := EarlyTurn(dead.disk.value, t, t);
    last := Tick(turn.checkAt, turn.(seenAt := turn.checkAt));
    FirstReading(turn.checkAt, last, []);
    assert Ordered(t, last) && ClockAfter(t, launch) == t;
    FirstReading(t, last, []);
    FirstReading(t, launch, [last] + []);
    var r := dead.disk.value.(status := Stopped, recorded := false);
    var s := Slot(Some(r), false, At(t - 1 + Delay(c)), false);
    assert AdoptionIn(dead, launch) == Adoption(s, false, false);
    StaleTick(c, s, r, last);
    FirstEvent(dead, launch, [last] + []);
    FirstEvent(s, last, []);
  }

  lemma {:induction false} StaleTick(c: Config, s: Slot, r: Record, last: Event)
    requires Supervised(c) && r.config == c && r.status == Stopped && !r.recorded && !r.stoppedByUser && !r.blocked
    requires s == Slot(Some(r), false, s.managed, false) && s.managed.At?
    requires last.Tick? && !last.turn.removing && last.turn.checkAt >= s.managed.t
    requires WindowExpired(r, last.turn.guardAt)
    ensures AdoptionIn(s, last).attempted
  {
    var r1 := FinalizeStopped(r, last.exitAt);
    assert FinalizeOne(s, last.exitAt) == Slot(Some(r1), false, s.managed, true);
    assert Eligible(r1) && Allow(r1, last.turn.guardAt).1;
  }

  /** It can also fail a tick later: the relaunch starts nothing, but takes up the deadline of an
      older exit, and the tick that sees the new exit keeps it. */
  lemma {:induction false} StaleDeadlineBreaksPacing(c: Config, t: int) returns (s: Slot, ok: Event, launch: Event, last: Event)
    requires Supervised(c) && Delay(c) > 1
    ensures s.disk.Some? && s.disk.value.config == c
    ensures NoUserCommand([ok] + ([Crash] + ([launch] + ([last] + []))))
    ensures Chronological(t, [ok] + ([Crash] + ([launch] + ([last] + []))))
    ensures ok.Tick? && launch.Launch? && last.Tick?
    ensures !AdoptionIn(Step(Step(s, ok), Crash), launch).attempted
    ensures !Paced(Attempts(s, [ok] + ([Crash] + ([launch] + ([last] + [])))), Delay(c))
  {
    s, ok := DueSlot(c, t - 1, t), Tick(t, TurnAt(t, true));
    launch, last := StaleDeadline(c, t);
    FirstReading(t, Crash, [launch] + ([last] + []));
    FirstReading(t, ok, [Crash] + ([launch] + ([last] + [])));
    StartedAndDead(c, t - 1, t);
    CloseAttempts(s, ok, Step(s, ok), Crash, DeadSlot(c, t - 1, t), [launch] + ([last] + []),
                  Attempt(last.turn.checkAt, last.turn.endAt), Delay(c));
  }
}
