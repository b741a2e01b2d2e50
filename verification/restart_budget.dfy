/** Whole-run guarantees of the crash-loop guard and of exit detection. */
module RestartBudget {
  import opened Supervision
  import opened Wrappers

  // ---------------------------------------------------------------- counting

  function CountIn(xs: seq<int>, lo: int, hi: int): nat {
    if xs == [] then 0
    else CountIn(xs[..|xs| - 1], lo, hi) + (if lo <= xs[|xs| - 1] <= hi then 1 else 0)
  }

  ghost predicate Sorted(xs: seq<int>) { forall i, j :: 0 <= i <= j < |xs| ==> xs[i] <= xs[j] }

  /** More than 2m numbers in a row span more than `w`. */
  ghost predicate Spread(xs: seq<int>, m: nat, w: int) {
    forall i, j :: 0 <= i && i + 2 * m <= j < |xs| ==> xs[j] - xs[i] > w
  }

  lemma {:induction false} CountAppend(xs: seq<int>, ys: seq<int>, lo: int, hi: int)
    ensures CountIn(xs + ys, lo, hi) == CountIn(xs, lo, hi) + CountIn(ys, lo, hi)
    decreases |ys|
  {
    if ys == [] {
      assert xs + ys == xs;
    } else {
      assert (xs + ys)[..|xs + ys| - 1] == xs + ys[..|ys| - 1];
      CountAppend(xs, ys[..|ys| - 1], lo, hi);
    }
  }

  lemma {:induction false} NothingCountedBelow(xs: seq<int>, lo: int, hi: int)
    requires Sorted(xs) && (xs != [] ==> xs[|xs| - 1] < lo)
    ensures CountIn(xs, lo, hi) == 0
    decreases |xs|
  {
    if |xs| > 1 {
      NothingCountedBelow(xs[..|xs| - 1], lo, hi);
    }
  }

  /** When the last element is counted, the counted elements are the last ones. */
  lemma {:induction false} CountedAreLast(xs: seq<int>, lo: int, hi: int)
    requires Sorted(xs) && xs != [] && lo <= xs[|xs| - 1] <= hi
    ensures 1 <= CountIn(xs, lo, hi) <= |xs| && lo <= xs[|xs| - CountIn(xs, lo, hi)]
    decreases |xs|
  {
    var ys := xs[..|xs| - 1];
    if ys == [] || ys[|ys| - 1] < lo {
      NothingCountedBelow(ys, lo, hi);
    } else {
      CountedAreLast(ys, lo, hi);
    }
  }

  lemma {:induction false} SpreadBoundsCount(xs: seq<int>, m: nat, lo: int, w: int)
    requires Sorted(xs) && Spread(xs, m, w) && m > 0
    ensures CountIn(xs, lo, lo + w) <= 2 * m
    decreases |xs|
  {
    if xs != [] {
      if lo <= xs[|xs| - 1] <= lo + w {
        CountedAreLast(xs, lo, lo + w);
      } else {
        SpreadBoundsCount(xs[..|xs| - 1], m, lo, w);
      }
    }
  }

  // ---------------------------------------------------------------- what a run does

  /** The times at which the guard granted a supervised start. */
  function Grants(s: Slot, run: seq<Event>): seq<int>
    decreases |run|
  {
    if run == [] then []
    else (if AdoptionIn(s, run[0]).granted then [run[0].turn.guardAt] else []) + Grants(Step(s, run[0]), run[1..])
  }

  /** The same times, of the grants that were followed by a start attempt. */
  function Starts(s: Slot, run: seq<Event>): seq<int>
    decreases |run|
  {
    if run == [] then []
    else (if AdoptionIn(s, run[0]).attempted then [run[0].turn.guardAt] else []) + Starts(Step(s, run[0]), run[1..])
  }

  /** Every start is paid for by a grant of its own. */
  lemma {:induction false} StartsArePaidFor(s: Slot, run: seq<Event>, lo: int, hi: int)
    ensures CountIn(Starts(s, run), lo, hi) <= CountIn(Grants(s, run), lo, hi)
    ensures |Starts(s, run)| <= |Grants(s, run)|
    decreases |run|
  {
    if run != [] {
      var e := run[0];
      StartsArePaidFor(Step(s, e), run[1..], lo, hi);
      var g := if AdoptionIn(s, e).granted then [e.turn.guardAt] else [];
      var a := if AdoptionIn(s, e).attempted then [e.turn.guardAt] else [];
      CountAppend(g, Grants(Step(s, e), run[1..]), lo, hi);
      CountAppend(a, Starts(Step(s, e), run[1..]), lo, hi);
      assert a == g || a == [];
    }
  }

  // ---------------------------------------------------------------- the budget

  /** How the grants so far lie around the guard's current window [start, start + w). */
  ghost predicate Around(g: seq<int>, attempts: nat, start: int, m: nat, w: int) {
    && (forall k :: 0 <= k < |g| && k >= |g| - attempts ==> start <= g[k] < start + w)
    && (forall k :: 0 <= k < |g| - attempts ==> g[k] < start)
    && (forall k :: 0 <= k < |g| - attempts - m ==> g[k] < start - w)
  }

  ghost predicate WindowInv(g: seq<int>, attempts: int, windowStart: Option<int>, now: int, m: nat, w: int) {
    && attempts >= 0 && (attempts <= m || g == [])
    && (windowStart.None? ==> g == [])
    && (windowStart.Some? ==> windowStart.value <= now && Around(g, attempts, windowStart.value, m, w))
  }

  ghost predicate GrantsInv(g: seq<int>, now: int, m: nat, w: int) {
    Sorted(g) && Spread(g, m, w) && forall k :: 0 <= k < |g| ==> g[k] <= now
  }

  ghost predicate BudgetInv(s: Slot, g: seq<int>, now: int, c: Config) {
    && GrantsInv(g, now, MaxAttempts(c), Window(c))
    && (s.disk.Some? ==>
          var r := s.disk.value;
          r.config == c && WindowInv(g, r.attempts, r.windowStart, now, MaxAttempts(c), Window(c)))
  }

  lemma {:induction false} ExtendGrants(g: seq<int>, attempts: nat, start: int, now: int, m: nat, w: int)
    requires GrantsInv(g, now, m, w) && 0 <= attempts < m && start <= now < start + w && Around(g, attempts, start, m, w)
    ensures GrantsInv(g + [now], now, m, w) && Around(g + [now], attempts + 1, start, m, w)
  {
  }

  lemma {:induction false} NewWindow(g: seq<int>, attempts: nat, start: int, now: int, m: nat, w: int)
    requires GrantsInv(g, now, m, w) && 0 <= attempts <= m && start + w <= now && Around(g, attempts, start, m, w) && w > 0
    ensures Around(g, 0, now, m, w)
  {
  }

  /** The guard keeps the invariant, granting or not. */
  lemma {:induction false} AllowKeepsWindow(r: Record, g: seq<int>, now: int)
    requires GrantsInv(g, now, MaxAttempts(r.config), Window(r.config))
    requires WindowInv(g, r.attempts, r.windowStart, now, MaxAttempts(r.config), Window(r.config))
    ensures var (r', ok) := Allow(r, now);
            var g' := if ok then g + [now] else g;
            && GrantsInv(g', now, MaxAttempts(r.config), Window(r.config))
            && WindowInv(g', r'.attempts, r'.windowStart, now, MaxAttempts(r.config), Window(r.config))
            && r'.config == r.config
  {
    var m, w := MaxAttempts(r.config), Window(r.config);
    if !r.blocked {
      var expired := WindowExpired(r, now);
      var start := if expired then now else r.windowStart.value;
      var attempts := if expired then 0 else r.attempts;
      if expired && r.windowStart.Some? && r.attempts <= m {
        NewWindow(g, r.attempts, r.windowStart.value, now, m, w);
      }
      assert Around(g, attempts, start, m, w);
      if attempts < m {
        ExtendGrants(g, attempts, start, now, m, w);
      }
    }
  }

  lemma {:induction false} LaterKeepsBudget(s: Slot, g: seq<int>, now: int, later: int, c: Config)
    requires BudgetInv(s, g, now, c) && now <= later
    ensures BudgetInv(s, g, later, c)
  {
  }

  lemma {:induction false} FinalizeKeepsBudget(s: Slot, exitAt: int, g: seq<int>, now: int, c: Config)
    requires BudgetInv(s, g, now, c)
    ensures BudgetInv(FinalizeOne(s, exitAt), g, now, c)
  {
  }

  /** From `r` to `r'` the guard changed by one call of `Allow` at most, which granted if `granted`. */
  ghost predicate GuardMove(r: Record, r': Record, granted: bool, guardAt: int) {
    var (q, ok) := Allow(r, guardAt);
    && r'.config == r.config
    && (granted ==> ok && r'.attempts == q.attempts && r'.windowStart == q.windowStart)
    && (!granted ==> (r'.attempts == r.attempts && r'.windowStart == r.windowStart)
                     || (!ok && r'.attempts == q.attempts && r'.windowStart == q.windowStart))
  }

  lemma {:induction false} AdoptGuard(s: Slot, e: Turn)
    requires s.disk.Some?
    ensures AdoptOne(s, e).slot.disk.Some?
    ensures GuardMove(s.disk.value, AdoptOne(s, e).slot.disk.value, AdoptOne(s, e).granted, e.guardAt)
  {
  }

  lemma {:induction false} MoveKeepsBudget(s: Slot, s': Slot, granted: bool, guardAt: int, g: seq<int>, c: Config)
    requires s.disk.Some? && s'.disk.Some? && GuardMove(s.disk.value, s'.disk.value, granted, guardAt)
    requires BudgetInv(s, g, guardAt, c)
    ensures BudgetInv(s', g + if granted then [guardAt] else [], guardAt, c)
  {
    Reassociate(g, [], []);
    AllowKeepsWindow(s.disk.value, g, guardAt);
  }

  lemma {:induction false} AdoptKeepsBudget(s: Slot, e: Turn, g: seq<int>, now: int, c: Config)
    requires BudgetInv(s, g, now, c) && TurnOrdered(now, e)
    ensures BudgetInv(AdoptOne(s, e).slot, g + if AdoptOne(s, e).granted then [e.guardAt] else [], e.endAt, c)
  {
    Reassociate(g, [], []);
    LaterKeepsBudget(s, g, now, e.guardAt, c);
    var a := AdoptOne(s, e);
    if s.disk.Some? {
      AdoptGuard(s, e);
      MoveKeepsBudget(s, a.slot, a.granted, e.guardAt, g, c);
    }
    LaterKeepsBudget(a.slot, g + if a.granted then [e.guardAt] else [], e.guardAt, e.endAt, c);
  }

  lemma {:induction false} BudgetStep(s: Slot, e: Event, g: seq<int>, now: int, c: Config)
    requires Supervised(c) && !UserCommand(e) && Ordered(now, e) && BudgetInv(s, g, now, c)
    ensures BudgetInv(Step(s, e), g + if AdoptionIn(s, e).granted then [e.turn.guardAt] else [],
                      ClockAfter(now, e), c)
  {
    Reassociate(g, [], []);
    match e
    case Tick(exitAt, turn) =>
      FinalizeKeepsBudget(s, exitAt, g, now, c);
      LaterKeepsBudget(FinalizeOne(s, exitAt), g, now, exitAt, c);
      AdoptKeepsBudget(FinalizeOne(s, exitAt), turn, g, exitAt, c);
    case Launch(turn) => AdoptKeepsBudget(BeforeAdoption(s, e), turn, g, now, c);
    case MonitoredExit(exitAt, _) => LaterKeepsBudget(Step(s, e), g, now, exitAt, c);
    case MonitorRestart(at, _) => LaterKeepsBudget(s, g, now, at, c);
    case _ =>
  }

  lemma {:induction false} Reassociate(g: seq<int>, x: seq<int>, tail: seq<int>)
    ensures g + (x + tail) == (g + x) + tail && g + [] == g
  {
  }

  lemma {:induction false} RunKeepsBudget(s: Slot, run: seq<Event>, g: seq<int>, now: int, c: Config)
    requires Supervised(c) && NoUserCommand(run) && Chronological(now, run) && BudgetInv(s, g, now, c)
    ensures exists later :: GrantsInv(g + Grants(s, run), later, MaxAttempts(c), Window(c))
    decreases |run|
  {
    if run == [] {
      assert g + Grants(s, run) == g;
      assert GrantsInv(g + Grants(s, run), now, MaxAttempts(c), Window(c));
    } else {
      var e := run[0];
      assert e in run;
      BudgetStep(s, e, g, now, c);
      var x := if AdoptionIn(s, e).granted then [e.turn.guardAt] else [];
      assert Grants(s, run) == x + Grants(Step(s, e), run[1..]);
      Reassociate(g, x, Grants(Step(s, e), run[1..]));
      RunKeepsBudget(Step(s, e), run[1..], g + x, ClockAfter(now, e), c);
    }
  }

  lemma {:induction false} UnsupervisedNeverGranted(s: Slot, run: seq<Event>, c: Config)
    requires !Supervised(c) && NoUserCommand(run) && (s.disk.Some? ==> s.disk.value.config == c)
    ensures Grants(s, run) == []
    decreases |run|
  {
    if run != [] {
      assert run[0] in run;
      UnattendedKeepsConfig(s, run[0], c);
      assert !AdoptionIn(s, run[0]).granted;
      UnsupervisedNeverGranted(Step(s, run[0]), run[1..], c);
    }
  }

  /** The guard's counters as read from a state file written before `now`. */
  ghost predicate GuardOnFile(s: Slot, now: int, c: Config) {
    s.disk.Some? ==> s.disk.value.config == c && s.disk.value.attempts >= 0
                     && (s.disk.value.windowStart.Some? ==> s.disk.value.windowStart.value <= now)
  }

  lemma {:induction false} GrantsAreSpread(s: Slot, run: seq<Event>, now: int, c: Config)
    requires NoUserCommand(run) && Chronological(now, run) && GuardOnFile(s, now, c)
    ensures Sorted(Grants(s, run)) && Spread(Grants(s, run), MaxAttempts(c), Window(c))
  {
    if Supervised(c) {
      RunKeepsBudget(s, run, [], now, c);
      assert [] + Grants(s, run) == Grants(s, run);
    } else {
      UnsupervisedNeverGranted(s, run, c);
    }
  }

  /** Over every run without user commands, also across supervisor relaunches, any time interval
      as long as the restart window contains at most 2 * max supervised start attempts. */
  lemma {:induction false} StartsWithinBudget(s: Slot, run: seq<Event>, now: int, c: Config, t: int)
    requires NoUserCommand(run) && Chronological(now, run) && GuardOnFile(s, now, c)
    ensures CountIn(Starts(s, run), t, t + Window(c)) <= 2 * MaxAttempts(c)
  {
    StartsArePaidFor(s, run, t, t + Window(c));
    GrantsAreSpread(s, run, now, c);
    SpreadBoundsCount(Grants(s, run), MaxAttempts(c), t, Window(c));
  }

  lemma {:induction false} BlockedStep(s: Slot, e: Event, c: Config)
    requires Supervised(c) && s.disk.Some? && s.disk.value.config == c && s.disk.value.blocked && !UserCommand(e)
    ensures !AdoptionIn(s, e).granted
    ensures Step(s, e).disk.Some? ==> Step(s, e).disk.value.config == c && Step(s, e).disk.value.blocked
  {
    if e.Tick? || e.Launch? {
      var before := BeforeAdoption(s, e);
      assert before.disk.Some? ==> before.disk.value.config == c && before.disk.value.blocked;
    }
  }

  /** A blocked container stays blocked, and nothing is granted to it any more. */
  lemma {:induction false} BlockedStaysBlocked(s: Slot, run: seq<Event>, c: Config)
    requires Supervised(c) && s.disk.Some? && s.disk.value.config == c && s.disk.value.blocked && NoUserCommand(run)
    ensures Grants(s, run) == []
    ensures After(s, run).disk.Some? ==> After(s, run).disk.value.blocked
    decreases |run|
  {
    if run != [] {
      var e := run[0];
      assert e in run;
      var s' := Step(s, e);
      BlockedStep(s, e, c);
      if s'.disk.Some? {
        BlockedStaysBlocked(s', run[1..], c);
      } else {
        RemovedStaysRemoved(s', run[1..]);
      }
    }
  }

  lemma {:induction false} RemovedStaysRemoved(s: Slot, run: seq<Event>)
    requires s.disk.None? && NoUserCommand(run)
    ensures Grants(s, run) == [] && After(s, run).disk.None?
    decreases |run|
  {
    if run != [] {
      assert run[0] in run;
      RemovedStaysRemoved(Step(s, run[0]), run[1..]);
    }
  }

  // ---------------------------------------------------------------- exit detection

  /** The poll loop handles an exit of this container in this event. */
  predicate Finalizes(s: Slot, e: Event) {
    e.Tick? && s.disk.Some?
    && var r := Normalize(s.disk.value, s.alive);
       r.config.detach && !ProcessAlive(r, s.alive) && !s.finalized
  }

  /** The poll loop sees the container alive or gone, or a start is attempted, or the supervisor is a new one. */
  predicate Forgets(s: Slot, e: Event) {
    || e.Launch?
    || AdoptionIn(s, e).attempted
    || (e.Tick? && (s.disk.None? || ProcessAlive(Normalize(s.disk.value, s.alive), s.alive)))
  }

  /** What the poll loop writes: a live container's file is only normalized, and an exit is
      recorded exactly when `Finalizes` says so. */
  lemma {:induction false} LiveIsNeverFinalized(s: Slot, exitAt: int, turn: Turn)
    requires s.disk.Some?
    ensures ProcessAlive(s.disk.value, s.alive) ==> FinalizeOne(s, exitAt).disk == s.disk
    ensures FinalizeOne(s, exitAt).disk != Some(Normalize(s.disk.value, s.alive)) ==> Finalizes(s, Tick(exitAt, turn))
    ensures Finalizes(s, Tick(exitAt, turn)) ==>
              FinalizeOne(s, exitAt).finalized
              && (FinalizeOne(s, exitAt).disk.Some? ==> FinalizeOne(s, exitAt).disk.value.lastExitAt == Some(exitAt))
  {
  }

  /** A reaped child of the supervisor that is recorded for this container: its exit is put on file
      at once, and the poll loop handles it once more, exactly if the loop has not noted an exit of
      the container since it last saw it alive or started it. */
  lemma {:induction false} ReapedIsHandledTwice(s: Slot, at: int, exitAt: int, turn: Turn)
    requires s.disk.Some? && s.disk.value.config.detach && Normalize(s.disk.value, s.alive).recorded
    ensures var t := Step(s, Reap(at, true));
            t.disk.Some? ==>
              t.disk.value.lastExitAt == Some(at) && !t.disk.value.recorded && (Finalizes(t, Tick(exitAt, turn)) <==> !s.finalized)
  {
  }

  lemma {:induction false} FinalizedUntilForgotten(s: Slot, run: seq<Event>, j: nat)
    requires s.finalized && j < |run|
    requires forall k :: 0 <= k < j ==> !Forgets(After(s, run[..k]), run[k])
    ensures After(s, run[..j]).finalized && !Finalizes(After(s, run[..j]), run[j])
    decreases j
  {
    if j == 0 {
      assert run[..0] == [];
    } else {
      assert run[..0] == [] && !Forgets(After(s, run[..0]), run[0]);
      var s', rest := Step(s, run[0]), run[1..];
      forall k | 0 <= k < j - 1
        ensures !Forgets(After(s', rest[..k]), rest[k])
      {
        assert run[..k + 1][1..] == rest[..k] && run[..k + 1][0] == run[0];
        assert !Forgets(After(s, run[..k + 1]), run[k + 1]);
      }
      assert run[..j][1..] == rest[..j - 1] && run[..j][0] == run[0];
      FinalizedUntilForgotten(s', rest, j - 1);
    }
  }

  /** Two finalizations of one container have a liveness observation, a start attempt, a removal
      or a supervisor relaunch between them. */
  lemma {:induction false} FinalizedAtMostOnce(s: Slot, run: seq<Event>, j: nat)
    requires 0 < j < |run| && Finalizes(s, run[0]) && Finalizes(After(s, run[..j]), run[j])
    ensures exists k :: 0 <= k < j && Forgets(After(s, run[..k]), run[k])
  {
    if forall k :: 0 <= k < j ==> !Forgets(After(s, run[..k]), run[k]) {
      assert run[..0] == [] && !Forgets(After(s, run[..0]), run[0]);
      var s', rest := Step(s, run[0]), run[1..];
      assert s'.finalized;
      forall k | 0 <= k < j - 1
        ensures !Forgets(After(s', rest[..k]), rest[k])
      {
        assert run[..k + 1][1..] == rest[..k] && run[..k + 1][0] == run[0];
        assert !Forgets(After(s, run[..k + 1]), run[k + 1]);
      }
      assert run[..j][1..] == rest[..j - 1] && run[..j][0] == run[0];
      FinalizedUntilForgotten(s', rest, j - 1);
    }
  }
}
