/** The handshake between `start` (internal/container/start.go) and container init
    (internal/container/init.go).  Two processes, the `unshare` process between them, and two
    pipes: init says "ready", the parent sets up the network and then says "go" or "abort".
    Any step may fail, time out, or be cut short by a kill or a crash. */
module Handshake {
  import opened Splitting
  import opened Trimming
  import opened Wrappers

  // ---------------------------------------------------------------- messages and environment

  /** What ReadString('\n') returns of the text written so far, if the line is complete. */
  function FirstLine(s: string, from: nat): Option<string>
    requires from <= |s|
    decreases |s| - from
  {
    if from == |s| then None else if s[from] == '\n' then Some(s[..from + 1]) else FirstLine(s, from + 1)
  }

  /** What has been written to a pipe; each pipe carries at most one message. */
  datatype Written = Nothing | Ready | Go | Abort

  function Text(w: Written): string {
    match w
    case Nothing => ""
    case Ready => "ready\n"
    case Go => "go\n"
    case Abort => "abort\n"
  }

  /** The message a reader that trims the first line takes this text for, if there is a line. */
  function Line(w: Written): Option<string> {
    match FirstLine(Text(w), 0)
    case None => None
    case Some(line) => Some(TrimSpace(line))
  }

  /** So a reader blocks on an empty pipe, and tells the three messages apart. */
  lemma {:induction false} ReadersUnderstand(w: Written)
    ensures Line(w).None? <==> w == Nothing
    ensures Line(w) == Some("ready") <==> w == Ready
    ensures Line(w) == Some("go") <==> w == Go
  {
    match w
    case Nothing =>
    case Ready =>
      TrimmedWord("ready");
      assert FirstLine("ready\n", 0) == Some("ready\n"[..6]) && "ready\n"[..6] == "ready" + "\n";
    case Go =>
      TrimmedWord("go");
      assert FirstLine("go\n", 0) == Some("go\n"[..3]) && "go\n"[..3] == "go" + "\n";
    case Abort =>
      TrimmedWord("abort");
      assert FirstLine("abort\n", 0) == Some("abort\n"[..6]) && "abort\n"[..6] == "abort" + "\n";
  }

  lemma {:induction false} TrimmedWord(w: string)
    requires w != "" && !IsSpace(w[0]) && !IsSpace(w[|w| - 1])
    ensures TrimSpace(w + "\n") == w
  {
    var s := w + "\n";
    assert s[0] == w[0] && s[|s| - 1] == '\n' && s[..|s| - 1] == w;
    assert TrimLeft(s) == s;
    assert TrimRight(s) == TrimRight(w) == w;
  }

  // ---------------------------------------------------------------- the processes

  datatype Parent =
    | Spawning | AwaitingReady | Resolving | SettingUp | Refusing | Releasing
    | Recording | CheckingRemoval | Aborting | Closing | Done

  datatype Child = Unborn | Booting | Signalling | AtGate | Passed | Executing | Dead

  /** `ready` and `gate` are what was written to the two pipes so far; each is read once.
      `setUp` records that resource and network setup ever finished, `attached` that the
      network is still in place, `running` that status Running was committed. */
  datatype State = State(
    needsNetwork: bool, parent: Parent, child: Child, unshare: bool,
    ready: Written, gate: Written, setUp: bool, attached: bool, running: bool)

  datatype Action =
    | Spawn(ok: bool)
    | ReadReady | ReadyTimeout
    | Resolve(found: bool)
    | SetUp(ok: bool)
    | Refuse(ok: bool)
    | Release(ok: bool)
    | Record(ok: bool)
    | CheckRemoval(removed: bool)
    | AbortStart
    | Close
    | ParentCrash
    | Load(ok: bool)
    | Signal(ok: bool)
    | ReadGate
    | Exec(ok: bool)
    | ChildDies
    | UnshareExits
    | UnshareKilled

  function Init(needsNetwork: bool): State {
    State(needsNetwork, Spawning, Unborn, false, Nothing, Nothing, false, false, false)
  }

  /** The parent holds its pipe ends until it returns or crashes. */
  predicate ParentHolds(s: State) { s.parent != Done }

  predicate ReadyHasWriter(s: State) { s.unshare || s.child in {Booting, Signalling} }

  predicate GateHasReader(s: State) { s.unshare || s.child in {Booting, Signalling, AtGate} }

  /** The state after the action, or None when the action cannot happen (or blocks) in this state. */
  function Next(s: State, a: Action): Option<State> {
    match a
    case Spawn(ok) =>
      if s.parent != Spawning then None
      else if !ok then Some(s.(parent := Closing))
      else Some(s.(parent := if s.needsNetwork then AwaitingReady else Resolving, child := Booting, unshare := true))
    case ReadReady =>
      if s.parent != AwaitingReady then None
      else if s.ready != Nothing then Some(s.(parent := if s.ready == Ready then Resolving else Aborting))
      else if ReadyHasWriter(s) then None
      else Some(s.(parent := Aborting))
    case ReadyTimeout =>
      if s.parent != AwaitingReady then None else Some(s.(parent := Aborting))
    case Resolve(found) =>
      if s.parent != Resolving then None else Some(s.(parent := if found then SettingUp else Aborting))
    case SetUp(ok) =>
      if s.parent != SettingUp then None
      else if ok then Some(s.(parent := if s.needsNetwork then Releasing else Recording, setUp := true,
                              attached := s.needsNetwork))
      else Some(s.(parent := if s.needsNetwork then Refusing else Aborting))
    case Refuse(ok) =>
      if s.parent != Refusing || (ok && !GateHasReader(s)) then None
      else Some(s.(parent := Aborting, gate := if ok then Abort else s.gate))
    case Release(ok) =>
      if s.parent != Releasing || (ok && !GateHasReader(s)) then None
      else if ok then Some(s.(parent := Recording, gate := Go))
      else Some(s.(parent := Aborting))
    case Record(ok) =>
      if s.parent != Recording then None else Some(s.(parent := if ok then CheckingRemoval else Aborting))
    case CheckRemoval(removed) =>
      if s.parent != CheckingRemoval then None
      else Some(s.(parent := if removed then Aborting else Closing, running := !removed))
    case AbortStart =>
      if s.parent != Aborting then None else Some(s.(parent := Closing, unshare := false, attached := false))
    case Close =>
      if s.parent != Closing then None else Some(s.(parent := Done))
    case ParentCrash =>
      if s.parent == Done then None else Some(s.(parent := Done))
    case Load(ok) =>
      if s.child != Booting then None
      else Some(s.(child := if !ok then Dead else if s.needsNetwork then Signalling else Passed))
    case Signal(ok) =>
      if s.child != Signalling || (ok && !ParentHolds(s)) then None
      else if ok then Some(s.(child := AtGate, ready := Ready))
      else Some(s.(child := Dead))
    case ReadGate =>
      if s.child != AtGate then None
      else if s.gate != Nothing then Some(s.(child := if s.gate == Go then Passed else Dead))
      else if ParentHolds(s) then None
      else Some(s.(child := Dead))
    case Exec(ok) =>
      if s.child != Passed then None else Some(s.(child := if ok then Executing else Dead))
    case ChildDies =>
      if s.child in {Unborn, Dead} then None else Some(s.(child := Dead))
    case UnshareExits =>
      if s.unshare && s.child == Dead then Some(s.(unshare := false)) else None
    case UnshareKilled =>
      if s.unshare then Some(s.(unshare := false)) else None
  }

  /** The state after a run of actions, if that run is possible. */
  function After(s: State, run: seq<Action>): Option<State>
    decreases |run|
  {
    if run == [] then Some(s)
    else match Next(s, run[0])
      case None => None
      case Some(t) => After(t, run[1..])
  }

  // ---------------------------------------------------------------- what every step keeps

  ghost predicate Inv(s: State) {
    && s.gate != Ready && (s.ready == Nothing || s.ready == Ready)
    && (s.parent in {Spawning, AwaitingReady, Resolving, SettingUp, Refusing, Releasing} ==>
          s.gate == Nothing && !s.running && (s.setUp <==> s.parent == Releasing))
    && (s.gate == Go ==> s.setUp && s.needsNetwork && s.ready == Ready)
    && (s.parent in {Recording, CheckingRemoval} ==> s.setUp && !s.running && (s.needsNetwork ==> s.gate == Go))
    && (s.parent == Aborting ==> !s.running)
    && (s.running ==> s.setUp && (s.needsNetwork ==> s.gate == Go))
    && (s.needsNetwork && s.parent in {Resolving, SettingUp, Refusing, Releasing} ==> s.ready == Ready)
    && (s.needsNetwork && s.child in {Passed, Executing} ==> s.gate == Go)
    && (s.child == AtGate ==> s.ready == Ready) && (s.child == AtGate || s.child == Signalling ==> s.needsNetwork)
    && (s.child in {Unborn, Booting, Signalling} ==> s.ready == Nothing)
    && (s.parent == Spawning ==> s.child == Unborn)
    && (s.child == Unborn ==> !s.unshare && s.parent in {Spawning, Closing, Done})
    && (s.parent in {Refusing, Releasing, AwaitingReady} ==> s.needsNetwork)
    && (s.needsNetwork && (s.running || s.parent in {Releasing, Recording, CheckingRemoval}) ==> s.attached)
    && (s.gate == Go && s.needsNetwork ==> s.child !in {Unborn, Booting, Signalling})
  }

  /** The parent before it knows whether the setup works, while it decides, and while it returns;
      init until it waits at the gate, there and behind it, and the end of either process. */
  predicate Opening(a: Action) { a.Spawn? || a.ReadReady? || a.ReadyTimeout? || a.Resolve? || a.SetUp? }

  predicate Deciding(a: Action) { a.Refuse? || a.Release? || a.Record? || a.CheckRemoval? }

  predicate Returning(a: Action) { a.AbortStart? || a.Close? || a.ParentCrash? }

  predicate Reporting(a: Action) { a.Load? || a.Signal? }

  predicate Passing(a: Action) { a.ReadGate? || a.Exec? }

  predicate Ending(a: Action) { a.ChildDies? || a.UnshareExits? || a.UnshareKilled? }

  lemma {:induction false} OpeningKeepsInv(s: State, a: Action)
    requires Inv(s) && Next(s, a).Some? && Opening(a)
    ensures Inv(Next(s, a).value)
  {
  }

  lemma {:induction false} DecidingKeepsInv(s: State, a: Action)
    requires Inv(s) && Next(s, a).Some? && Deciding(a)
    ensures Inv(Next(s, a).value)
  {
  }

  lemma {:induction false} ReturningKeepsInv(s: State, a: Action)
    requires Inv(s) && Next(s, a).Some? && Returning(a)
    ensures Inv(Next(s, a).value)
  {
  }

  lemma {:induction false} ReportingKeepsInv(s: State, a: Action)
    requires Inv(s) && Next(s, a).Some? && Reporting(a)
    ensures Inv(Next(s, a).value)
  {
  }

  lemma {:induction false} PassingKeepsInv(s: State, a: Action)
    requires Inv(s) && Next(s, a).Some? && Passing(a)
    ensures Inv(Next(s, a).value)
  {
  }

  lemma {:induction false} EndingKeepsInv(s: State, a: Action)
    requires Inv(s) && Next(s, a).Some? && Ending(a)
    ensures Inv(Next(s, a).value)
  {
  }

  lemma {:induction false} SameNeeds(s: State, a: Action)
    requires Next(s, a).Some?
    ensures Next(s, a).value.needsNetwork == s.needsNetwork
  {
  }

  lemma {:induction false} StepKeepsInv(s: State, a: Action)
    requires Inv(s) && Next(s, a).Some?
    ensures Inv(Next(s, a).value) && Next(s, a).value.needsNetwork == s.needsNetwork
  {
    SameNeeds(s, a);
    if Opening(a) {
      OpeningKeepsInv(s, a);
    } else if Deciding(a) {
      DecidingKeepsInv(s, a);
    } else if Returning(a) {
      ReturningKeepsInv(s, a);
    } else if Reporting(a) {
      ReportingKeepsInv(s, a);
    } else if Passing(a) {
      PassingKeepsInv(s, a);
    } else {
      EndingKeepsInv(s, a);
    }
  }

  lemma {:induction false} RunKeepsInv(s: State, run: seq<Action>, t: State)
    requires Inv(s) && After(s, run) == Some(t)
    ensures Inv(t) && t.needsNetwork == s.needsNetwork
    decreases |run|
  {
    if run != [] {
      StepKeepsInv(s, run[0]);
      RunKeepsInv(Next(s, run[0]).value, run[1..], t);
    }
  }

  /** In every run: init passes the gate only after the parent finished resource and network
      setup and wrote "go"; status Running is committed only after setup, and when a network is
      needed only after init reported ready and "go" was written, and then the network stays. */
  lemma {:induction false} GateAndCommitAreSafe(needsNetwork: bool, run: seq<Action>, s: State)
    requires After(Init(needsNetwork), run) == Some(s)
    ensures needsNetwork && s.child in {Passed, Executing} ==> s.setUp && s.gate == Go && s.ready == Ready
    ensures s.running ==> s.setUp
    ensures s.running && needsNetwork ==> s.gate == Go && s.ready == Ready && s.attached
    ensures needsNetwork && s.parent in {Recording, CheckingRemoval} ==> s.attached
  {
    RunKeepsInv(Init(needsNetwork), run, s);
  }

  // ---------------------------------------------------------------- aborts are final

  /** The parent gave up, crashed or closed its end without having written "go". */
  ghost predicate Refused(s: State) {
    s.needsNetwork && s.gate != Go && s.parent in {Refusing, Aborting, Closing, Done}
  }

  lemma {:induction false} StepKeepsRefused(s: State, a: Action)
    requires Inv(s) && Refused(s) && Next(s, a).Some?
    ensures Refused(Next(s, a).value)
  {
  }

  lemma {:induction false} RefusedStays(s: State, run: seq<Action>, t: State)
    requires Inv(s) && Refused(s) && After(s, run) == Some(t)
    ensures t.child != Passed && t.child != Executing && !t.running
    decreases |run|
  {
    if run != [] {
      StepKeepsInv(s, run[0]);
      StepKeepsRefused(s, run[0]);
      RefusedStays(Next(s, run[0]).value, run[1..], t);
    }
  }

  /** Once the parent has aborted or its end of the gate is closed before "go", init never reaches
      exec, in no continuation: not even when the kill never arrives. */
  lemma {:induction false} NoExecAfterAbort(before: seq<Action>, s: State, after: seq<Action>, t: State)
    requires After(Init(true), before) == Some(s) && Refused(s) && After(s, after) == Some(t)
    ensures t.child != Passed && t.child != Executing && !t.running
  {
    RunKeepsInv(Init(true), before, s);
    RefusedStays(s, after, t);
  }

  // ---------------------------------------------------------------- and nothing else is refused

  function ParentRank(p: Parent): nat {
    match p
    case Spawning => 11
    case AwaitingReady => 9
    case Resolving => 8
    case SettingUp => 7
    case Releasing => 6
    case Refusing => 4
    case Recording => 5
    case CheckingRemoval => 4
    case Aborting => 3
    case Closing => 1
    case Done => 0
  }

  function ChildRank(c: Child): nat {
    match c
    case Unborn => 6
    case Booting => 5
    case Signalling => 4
    case AtGate => 3
    case Passed => 2
    case Executing => 1
    case Dead => 0
  }

  function Rank(s: State): nat { ParentRank(s.parent) + ChildRank(s.child) + (if s.unshare then 1 else 0) }

  /** Init is alive before its gate, and the parent has written "go" or may still do so. */
  ghost predicate MayPass(s: State) {
    && s.needsNetwork && s.child in {Unborn, Booting, Signalling, AtGate}
    && (s.child == Unborn ==> s.parent == Spawning)
    && (s.gate == Go || s.parent in {Spawning, AwaitingReady, Resolving, SettingUp, Releasing})
  }

  /** Then some step leads on towards the gate. */
  lemma {:induction false} StepTowardsGate(s: State) returns (a: Action)
    requires Inv(s) && MayPass(s)
    ensures Next(s, a).Some? && Rank(Next(s, a).value) < Rank(s)
    ensures MayPass(Next(s, a).value) || Next(s, a).value.child == Passed
  {
    a := if s.gate == Go then ReadGate
         else match s.parent
           case Spawning => Spawn(true)
           case AwaitingReady =>
             if s.child == Booting then Load(true) else if s.child == Signalling then Signal(true) else ReadReady
           case Resolving => Resolve(true)
           case SettingUp => SetUp(true)
           case _ => Release(true);
  }

  lemma {:induction false} WayThroughGate(s: State) returns (run: seq<Action>)
    requires Inv(s) && MayPass(s)
    ensures After(s, run).Some? && After(s, run).value.child == Passed
    decreases Rank(s)
  {
    var a := StepTowardsGate(s);
    var t := Next(s, a).value;
    StepKeepsInv(s, a);
    if t.child == Passed {
      run := [a];
      assert After(t, []) == Some(t) && run[1..] == [];
    } else {
      var more := WayThroughGate(t);
      run := [a] + more;
      assert run[1..] == more;
    }
  }

  lemma {:induction false} StepKeepsDead(s: State, a: Action)
    requires Inv(s) && s.child == Dead && Next(s, a).Some?
    ensures Next(s, a).value.child == Dead
  {
  }

  lemma {:induction false} DeadStaysDead(s: State, run: seq<Action>, t: State)
    requires Inv(s) && s.child == Dead && After(s, run) == Some(t)
    ensures t.child == Dead
    decreases |run|
  {
    if run != [] {
      StepKeepsInv(s, run[0]);
      StepKeepsDead(s, run[0]);
      DeadStaysDead(Next(s, run[0]).value, run[1..], t);
    }
  }

  ghost predicate CanOpen(s: State) {
    exists run :: After(s, run).Some? && After(s, run).value.child == Passed
  }

  /** The exact condition: from a reachable state in which init has not passed yet, some
      continuation lets it pass iff init is not dead and the parent has not refused. */
  lemma {:induction false} GateOpensIff(before: seq<Action>, s: State)
    requires After(Init(true), before) == Some(s) && s.child != Passed && s.child != Executing
    ensures CanOpen(s) <==> s.child != Dead && !Refused(s)
  {
    RunKeepsInv(Init(true), before, s);
    if CanOpen(s) {
      var run :| After(s, run).Some? && After(s, run).value.child == Passed;
      var t := After(s, run).value;
      assert s.child != Dead by { if s.child == Dead { DeadStaysDead(s, run, t); } }
      assert !Refused(s) by { if Refused(s) { RefusedStays(s, run, t); } }
    }
    if s.child != Dead && !Refused(s) {
      var run := WayThroughGate(s);
    }
  }

  // ---------------------------------------------------------------- every run ends

  lemma {:induction false} ParentDescends(s: State, a: Action)
    requires Inv(s) && Next(s, a).Some? && (Opening(a) || Deciding(a) || Returning(a))
    ensures Rank(Next(s, a).value) < Rank(s)
  {
  }

  lemma {:induction false} ChildDescends(s: State, a: Action)
    requires Next(s, a).Some? && !Opening(a) && !Deciding(a) && !Returning(a)
    ensures Rank(Next(s, a).value) < Rank(s)
  {
  }

  lemma {:induction false} StepDescends(s: State, a: Action)
    requires Inv(s) && Next(s, a).Some?
    ensures Rank(Next(s, a).value) < Rank(s)
  {
    if Opening(a) || Deciding(a) || Returning(a) {
      ParentDescends(s, a);
    } else {
      ChildDescends(s, a);
    }
  }

  lemma {:induction false} RunDescends(s: State, run: seq<Action>, t: State)
    requires Inv(s) && After(s, run) == Some(t)
    ensures |run| + Rank(t) <= Rank(s)
    decreases |run|
  {
    if run != [] {
      StepKeepsInv(s, run[0]);
      StepDescends(s, run[0]);
      RunDescends(Next(s, run[0]).value, run[1..], t);
    }
  }

  /** No run has more than 17 steps, whatever fails. */
  lemma {:induction false} RunsAreFinite(needsNetwork: bool, run: seq<Action>)
    requires After(Init(needsNetwork), run).Some?
    ensures |run| <= 17
  {
    RunDescends(Init(needsNetwork), run, After(Init(needsNetwork), run).value);
  }

  /** A step that needs no timeout, kill, crash or death to happen. */
  predicate Ordinary(a: Action) {
    a !in {ReadyTimeout, ParentCrash, ChildDies, UnshareKilled}
  }

  /** What the parent can do while init waits or is gone. */
  function ParentChoice(s: State): Action {
    match s.parent
    case Spawning => Spawn(true)
    case AwaitingReady => if s.child == Dead && s.unshare then UnshareExits else ReadReady
    case Resolving => Resolve(true)
    case SettingUp => SetUp(true)
    case Refusing => Refuse(false)
    case Releasing => Release(false)
    case Recording => Record(true)
    case CheckingRemoval => CheckRemoval(false)
    case Aborting => AbortStart
    case Closing => Close
    case Done => ReadGate
  }

  ghost predicate Finished(s: State) { s.parent == Done && s.child in {Unborn, Dead, Executing} }

  lemma {:induction false} ParentMoves(s: State)
    requires Inv(s) && s.child in {Unborn, AtGate, Executing, Dead} && !Finished(s)
    ensures Ordinary(ParentChoice(s)) && Next(s, ParentChoice(s)).Some?
  {
  }

  /** Neither process waits for ever on the other: unless the parent has returned and init has
      died or executes the image command, some ordinary step can happen. */
  lemma {:induction false} NeverStuck(needsNetwork: bool, before: seq<Action>, s: State)
    requires After(Init(needsNetwork), before) == Some(s)
    ensures Finished(s) || exists a :: Ordinary(a) && Next(s, a).Some?
  {
    RunKeepsInv(Init(needsNetwork), before, s);
    if !Finished(s) {
      match s.child
      case Booting => assert Ordinary(Load(true)) && Next(s, Load(true)).Some?;
      case Signalling => assert Ordinary(Signal(false)) && Next(s, Signal(false)).Some?;
      case Passed => assert Ordinary(Exec(true)) && Next(s, Exec(true)).Some?;
      case _ => ParentMoves(s);
    }
  }

  // ---------------------------------------------------------------- the descriptors init is told about

  const READY_FD := "DCK_INIT_READY_FD"
  const GO_FD := "DCK_INIT_GO_FD"

  /** The first entry for `name` wins. */
  function Getenv(env: seq<string>, name: string): Option<string> {
    if env == [] then None
    else if name + "=" <= env[0] then Some(env[0][|name| + 1..])
    else Getenv(env[1..], name)
  }

  function Unset(env: seq<string>): seq<string> {
    if env == [] then []
    else (if READY_FD + "=" <= env[0] || GO_FD + "=" <= env[0] then [] else [env[0]]) + Unset(env[1..])
  }

  function Setting(key: string, value: string): string { key + "=" + value }

  function InitNetworkEnvironment(env: seq<string>): seq<string> {
    Unset(env) + [Setting(READY_FD, "3"), Setting(GO_FD, "4")]
  }

  lemma {:induction false} GetenvAppend(a: seq<string>, b: seq<string>, name: string)
    ensures Getenv(a + b, name) == if Getenv(a, name).Some? then Getenv(a, name) else Getenv(b, name)
  {
    if a == [] {
      assert Getenv(a + b, name) == Getenv(b, name) by { assert a + b == b; }
    } else {
      assert (a + b)[1..] == a[1..] + b;
      GetenvAppend(a[1..], b, name);
    }
  }

  lemma {:induction false} UnsetRemovesOnly(env: seq<string>, name: string)
    requires '=' !in name
    ensures Getenv(Unset(env), name) == if name == READY_FD || name == GO_FD then None else Getenv(env, name)
  {
    if env != [] {
      UnsetRemovesOnly(env[1..], name);
      var head := if READY_FD + "=" <= env[0] || GO_FD + "=" <= env[0] then [] else [env[0]];
      GetenvAppend(head, Unset(env[1..]), name);
      if name + "=" <= env[0] {
        if READY_FD + "=" <= env[0] { SameHead('=', env[0], name, READY_FD); }
        if GO_FD + "=" <= env[0] { SameHead('=', env[0], name, GO_FD); }
      }
      assert head != [] ==> head[1..] == [];
    }
  }

  lemma {:induction false} SettingIsFound(key: string, value: string, rest: seq<string>, name: string)
    requires '=' !in name && '=' !in key
    ensures Getenv([Setting(key, value)] + rest, name) == if name == key then Some(value) else Getenv(rest, name)
  {
    var entry := Setting(key, value);
    var env := [entry] + rest;
    assert env[0] == entry && env[1..] == rest;
    assert key + "=" <= entry && entry[|key| + 1..] == value;
    if name + "=" <= entry {
      SameHead('=', entry, name, key);
    }
  }

  lemma {:induction false} KeysDiffer()
    ensures '=' !in READY_FD && '=' !in GO_FD && READY_FD != GO_FD
  {
    assert READY_FD[9] == 'R' && GO_FD[9] == 'G';
  }

  /** Init finds exactly descriptors 3 and 4, whatever `start` inherited; other variables are untouched. */
  lemma {:induction false} InitFindsItsDescriptors(env: seq<string>, name: string)
    requires '=' !in name
    ensures Getenv(InitNetworkEnvironment(env), name) ==
            if name == READY_FD then Some("3") else if name == GO_FD then Some("4") else Getenv(env, name)
  {
    var ready, go := Setting(READY_FD, "3"), Setting(GO_FD, "4");
    KeysDiffer();
    UnsetRemovesOnly(env, name);
    SettingIsFound(GO_FD, "4", [], name);
    SettingIsFound(READY_FD, "3", [go] + [], name);
    assert [ready] + ([go] + []) == [ready, go];
    GetenvAppend(Unset(env), [ready, go], name);
  }
}
