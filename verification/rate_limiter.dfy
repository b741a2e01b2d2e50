/** The per-client token bucket of internal/api/server.go, with its eviction of idle buckets.
    Times are seconds and tokens are reals. */
module RateLimiter {
  datatype Bucket = Bucket(tokens: real, last: real)

  type Clients = map<string, Bucket>

  const RATE: real := 25.0
  const BURST: real := 50.0
  const MAX_AGE: real := 300.0
  const MANY_CLIENTS: nat := 4096

  function Min(a: real, b: real): real { if a < b then a else b }

  /** The bucket's tokens after refilling up to `now`. */
  function Refill(b: Bucket, now: real): real { Min(BURST, b.tokens + (now - b.last) * RATE) }

  /** One request: a new bucket is full and was created at `createdAt`. */
  function Serve(clients: Clients, host: string, createdAt: real, now: real): (Clients, bool) {
    var b := if host in clients then clients[host] else Bucket(BURST, createdAt);
    var tokens := Refill(b, now);
    if tokens < 1.0 then (clients[host := Bucket(tokens, now)], false)
    else (clients[host := Bucket(tokens - 1.0, now)], true)
  }

  function Prune(clients: Clients, readAt: real): Clients {
    map h | h in clients && !(clients[h].last < readAt - MAX_AGE) :: clients[h]
  }

  /** A request, with its two clock readings, or an eviction pass whose cutoff was read at `readAt`. */
  datatype Event =
    | Request(host: string, loopback: bool, createdAt: real, now: real)
    | Evict(readAt: real, at: real)

  function Step(clients: Clients, e: Event): Clients {
    match e
    case Request(host, loopback, createdAt, now) => if loopback then clients else Serve(clients, host, createdAt, now).0
    case Evict(readAt, _) => Prune(clients, readAt)
  }

  function Admits(clients: Clients, e: Event): bool {
    e.Request? && (e.loopback || Serve(clients, e.host, e.createdAt, e.now).1)
  }

  /** The answers to the requests of a trace. */
  function Answers(clients: Clients, trace: seq<Event>): seq<bool>
    decreases |trace|
  {
    if trace == [] then []
    else (if trace[0].Request? then [Admits(clients, trace[0])] else []) + Answers(Step(clients, trace[0]), trace[1..])
  }

  function After(clients: Clients, trace: seq<Event>): Clients
    decreases |trace|
  {
    if trace == [] then clients else After(Step(clients, trace[0]), trace[1..])
  }

  /** The trace without its evictions. */
  function Requests(trace: seq<Event>): seq<Event> {
    if trace == [] then []
    else (if trace[0].Request? then [trace[0]] else []) + Requests(trace[1..])
  }

  ghost predicate Ordered(clock: real, e: Event) {
    match e
    case Request(_, _, createdAt, now) => clock <= createdAt <= now
    case Evict(readAt, at) => readAt <= at && clock <= at
  }

  ghost function Clock(e: Event): real { if e.Request? then e.now else e.at }

  ghost predicate Chronological(clock: real, trace: seq<Event>)
    decreases |trace|
  {
    trace == [] || (Ordered(clock, trace[0]) && Chronological(Clock(trace[0]), trace[1..]))
  }

  ghost predicate EndsBy(trace: seq<Event>, end: real) { forall e <- trace :: Clock(e) <= end }

  // ---------------------------------------------------------------- tokens

  ghost predicate InBounds(clients: Clients, clock: real) {
    forall h <- clients.Keys :: 0.0 <= clients[h].tokens <= BURST && clients[h].last <= clock
  }

  lemma {:induction false} StepInBounds(clients: Clients, e: Event, clock: real)
    requires InBounds(clients, clock) && Ordered(clock, e)
    ensures InBounds(Step(clients, e), Clock(e))
  {
  }

  lemma {:induction false} RunInBounds(clients: Clients, trace: seq<Event>, clock: real, end: real)
    requires InBounds(clients, clock) && Chronological(clock, trace) && EndsBy(trace, end) && clock <= end
    ensures InBounds(After(clients, trace), end)
    decreases |trace|
  {
    if trace != [] {
      assert trace[0] in trace;
      StepInBounds(clients, trace[0], clock);
      RunInBounds(Step(clients, trace[0]), trace[1..], Clock(trace[0]), end);
    }
  }

  /** In every run every bucket holds between 0 and 50 tokens and was used no later than the run's end. */
  lemma {:induction false} TokensStayInBounds(trace: seq<Event>, origin: real, end: real, host: string)
    requires Chronological(origin, trace) && EndsBy(trace, end) && origin <= end
    requires host in After(map[], trace)
    ensures 0.0 <= After(map[], trace)[host].tokens <= 50.0
    ensures After(map[], trace)[host].last <= end
  {
    RunInBounds(map[], trace, origin, end);
  }

  // ---------------------------------------------------------------- eviction is unobservable

  /** `pruned` is `full` without some buckets, all of them idle for longer than the maximal age. */
  ghost predicate Evicted(full: Clients, pruned: Clients, clock: real) {
    && InBounds(full, clock)
    && (forall h <- pruned.Keys :: h in full && pruned[h] == full[h])
    && (forall h <- full.Keys :: h !in pruned ==> clock - full[h].last > MAX_AGE)
  }

  lemma {:induction false} IdleIsFull(b: Bucket, now: real)
    requires 0.0 <= b.tokens && now - b.last > MAX_AGE
    ensures Refill(b, now) == BURST
  {
    assert (now - b.last) * RATE > MAX_AGE * RATE;
  }

  lemma {:induction false} RequestsAgree(full: Clients, pruned: Clients, e: Event, clock: real)
    requires e.Request? && Evicted(full, pruned, clock) && Ordered(clock, e)
    ensures Admits(full, e) == Admits(pruned, e)
    ensures Evicted(Step(full, e), Step(pruned, e), e.now)
  {
    StepInBounds(full, e, clock);
    if e.host in full && e.host !in pruned {
      IdleIsFull(full[e.host], e.now);
    }
    var full0 := Bucket(BURST, e.createdAt);
    assert Refill(full0, e.now) == BURST by { assert (e.now - e.createdAt) * RATE >= 0.0; }
  }

  lemma {:induction false} PrunedAgrees(full: Clients, pruned: Clients, trace: seq<Event>, clock: real)
    requires Evicted(full, pruned, clock) && Chronological(clock, trace)
    ensures Answers(full, Requests(trace)) == Answers(pruned, trace)
    decreases |trace|
  {
    if trace != [] {
      var e, rest := trace[0], trace[1..];
      if e.Request? {
        RequestsAgree(full, pruned, e, clock);
        PrunedAgrees(Step(full, e), Step(pruned, e), rest, e.now);
        assert Requests(trace)[1..] == Requests(rest);
      } else {
        PrunedAgrees(full, Step(pruned, e), rest, e.at);
        assert Requests(trace) == Requests(rest);
      }
    }
  }

  /** For every trace over any number of clients, with eviction passes anywhere in it, every
      request gets the answer that the limiter which never evicts gives. */
  lemma {:induction false} EvictionIsUnobservable(trace: seq<Event>, clock: real)
    requires Chronological(clock, trace)
    ensures Answers(map[], trace) == Answers(map[], Requests(trace))
  {
    PrunedAgrees(map[], map[], trace, clock);
  }

  // ---------------------------------------------------------------- the rate

  /** The tokens `host` would have at `now`. */
  function Level(clients: Clients, host: string, now: real): real {
    if host in clients then Refill(clients[host], now) else BURST
  }

  predicate Asks(e: Event, host: string) { e.Request? && e.host == host && !e.loopback }

  function AdmittedCount(clients: Clients, trace: seq<Event>, host: string): nat
    decreases |trace|
  {
    if trace == [] then 0
    else
      var e := trace[0];
      (if Asks(e, host) && Admits(clients, e) then 1 else 0)
      + AdmittedCount(Step(clients, e), trace[1..], host)
  }

  /** Nothing but waiting and admitted requests changes a client's level. */
  lemma {:induction false} LevelIsExact(clients: Clients, e: Event, host: string, clock: real)
    requires InBounds(clients, clock) && Ordered(clock, e)
    ensures Level(Step(clients, e), host, Clock(e))
            == Min(BURST, Level(clients, host, clock) + (Clock(e) - clock) * RATE)
               - (if Asks(e, host) && Admits(clients, e) then 1.0 else 0.0)
    ensures Asks(e, host) ==>
              (Admits(clients, e) <==> Level(clients, host, clock) + (Clock(e) - clock) * RATE >= 1.0)
  {
    var t := Clock(e);
    assert (t - clock) * RATE >= 0.0;
    assert Level(clients, host, t) == Min(BURST, Level(clients, host, clock) + (t - clock) * RATE) by {
      if host in clients {
        assert (t - clients[host].last) * RATE == (clock - clients[host].last) * RATE + (t - clock) * RATE;
      }
    }
    match e
    case Evict(readAt, at) =>
      if host in clients && host !in Step(clients, e) {
        assert at - clients[host].last > MAX_AGE;
        IdleIsFull(clients[host], at);
      }
    case Request(h, loopback, createdAt, now) =>
      if h == host && !loopback {
        assert (now - createdAt) * RATE >= 0.0;
        assert Refill(if host in clients then clients[host] else Bucket(BURST, createdAt), now) == Level(clients, host, now);
      }
  }

  lemma {:induction false} AdmittedWithin(clients: Clients, trace: seq<Event>, host: string, clock: real, end: real)
    requires InBounds(clients, clock) && Chronological(clock, trace) && EndsBy(trace, end) && clock <= end
    ensures AdmittedCount(clients, trace, host) as real <= Level(clients, host, clock) + (end - clock) * RATE
    decreases |trace|
  {
    assert (end - clock) * RATE >= 0.0;
    if trace == [] {
      assert Level(clients, host, clock) >= 0.0 by {
        if host in clients {
          assert (clock - clients[host].last) * RATE >= 0.0;
        }
      }
    } else {
      var e := trace[0];
      assert e in trace;
      StepInBounds(clients, e, clock);
      LevelIsExact(clients, e, host, clock);
      AdmittedWithin(Step(clients, e), trace[1..], host, Clock(e), end);
      assert (end - clock) * RATE == (end - Clock(e)) * RATE + (Clock(e) - clock) * RATE;
    }
  }

  /** For one client that is not loopback: after any past, the requests of any interval of
      `length` seconds of which at most 50 + 25 * length are admitted. */
  lemma {:induction false} RateBound(past: seq<Event>, trace: seq<Event>, host: string, origin: real, start: real, length: real)
    requires Chronological(origin, past) && EndsBy(past, start) && origin <= start
    requires Chronological(start, trace) && EndsBy(trace, start + length) && length >= 0.0
    ensures AdmittedCount(After(map[], past), trace, host) as real <= 50.0 + 25.0 * length
  {
    var clients := After(map[], past);
    RunInBounds(map[], past, origin, start);
    AdmittedWithin(clients, trace, host, start, start + length);
    assert Level(clients, host, start) <= BURST;
    assert (start + length - start) * RATE == 25.0 * length;
  }

  // ---------------------------------------------------------------- who is never refused

  function RequestCount(trace: seq<Event>, host: string): nat {
    if trace == [] then 0 else (if Asks(trace[0], host) then 1 else 0) + RequestCount(trace[1..], host)
  }

  /** From `clock` on, a bucket holding `level` tokens covers every prefix of the trace. */
  ghost predicate Covers(level: real, clock: real, trace: seq<Event>, host: string) {
    forall k :: 0 < k <= |trace| ==>
      RequestCount(trace[..k], host) as real <= level + (Clock(trace[k - 1]) - clock) * RATE
  }

  /** No stretch of the trace asks for more than the burst plus what its duration refills. */
  ghost predicate Conforms(trace: seq<Event>, host: string) {
    forall i :: 0 <= i < |trace| ==> Covers(BURST, Clock(trace[i]), trace[i..], host)
  }

  lemma {:induction false} ConformsTail(trace: seq<Event>, host: string)
    requires trace != [] && Conforms(trace, host)
    ensures Conforms(trace[1..], host)
  {
    forall i | 0 <= i < |trace| - 1
      ensures Covers(BURST, Clock(trace[1..][i]), trace[1..][i..], host)
    {
      assert trace[1..][i..] == trace[i + 1..];
    }
  }

  /** What is left after the first event still covers the rest. */
  lemma {:induction false} CoversTail(level: real, clock: real, trace: seq<Event>, host: string)
    requires trace != [] && Covers(level, clock, trace, host) && Covers(BURST, Clock(trace[0]), trace, host)
    ensures var e := trace[0];
            Covers(Min(BURST, level + (Clock(e) - clock) * RATE) - (if Asks(e, host) then 1.0 else 0.0),
                   Clock(e), trace[1..], host)
  {
    var e := trace[0];
    var left := Min(BURST, level + (Clock(e) - clock) * RATE) - (if Asks(e, host) then 1.0 else 0.0);
    forall k | 0 < k <= |trace| - 1
      ensures RequestCount(trace[1..][..k], host) as real <= left + (Clock(trace[1..][k - 1]) - Clock(e)) * RATE
    {
      assert trace[..k + 1][1..] == trace[1..][..k];
      assert RequestCount(trace[..k + 1], host) as real <= level + (Clock(trace[k]) - clock) * RATE;
      assert RequestCount(trace[..k + 1], host) as real <= BURST + (Clock(trace[k]) - Clock(e)) * RATE;
      assert (Clock(trace[k]) - clock) * RATE == (Clock(trace[k]) - Clock(e)) * RATE + (Clock(e) - clock) * RATE;
    }
  }

  lemma {:induction false} CoveredIsAdmitted(clients: Clients, trace: seq<Event>, host: string, clock: real)
    requires InBounds(clients, clock) && Chronological(clock, trace) && Conforms(trace, host)
    requires Covers(Level(clients, host, clock), clock, trace, host)
    ensures AdmittedCount(clients, trace, host) == RequestCount(trace, host)
    decreases |trace|
  {
    if trace != [] {
      var e := trace[0];
      StepInBounds(clients, e, clock);
      LevelIsExact(clients, e, host, clock);
      assert trace[0..] == trace;
      CoversTail(Level(clients, host, clock), clock, trace, host);
      ConformsTail(trace, host);
      if Asks(e, host) {
        assert trace[..1][0] == e && RequestCount(trace[..1], host) == 1;
      }
      CoveredIsAdmitted(Step(clients, e), trace[1..], host, Clock(e));
    }
  }

  /** The bound is the only reason for a refusal: a client none of whose stretches of requests
      exceeds 50 plus 25 a second is never refused, whatever the others do. */
  lemma {:induction false} ConformingIsNeverRefused(trace: seq<Event>, host: string, origin: real)
    requires Chronological(origin, trace) && Conforms(trace, host)
    ensures AdmittedCount(map[], trace, host) == RequestCount(trace, host)
  {
    if trace != [] {
      var e := trace[0];
      assert trace[0..] == trace;
      forall k | 0 < k <= |trace|
        ensures RequestCount(trace[..k], host) as real <= BURST + (Clock(trace[k - 1]) - origin) * RATE
      {
        assert RequestCount(trace[..k], host) as real <= BURST + (Clock(trace[k - 1]) - Clock(e)) * RATE;
        assert (Clock(trace[k - 1]) - origin) * RATE
            == (Clock(trace[k - 1]) - Clock(e)) * RATE + (Clock(e) - origin) * RATE;
      }
    }
    CoveredIsAdmitted(map[], trace, host, origin);
  }

  // ---------------------------------------------------------------- the handler

  class Limiter {
    var clients: Clients

    constructor ()
      ensures clients == map[]
    {
      clients := map[];
    }

    method PruneIdle(readAt: real)
      modifies this
      ensures clients == Prune(old(clients), readAt)
    {
      var cutoff := readAt - MAX_AGE;
      var todo := clients.Keys;
      while todo != {}
        invariant todo <= old(clients).Keys
        invariant forall h :: h in clients <==> h in old(clients) && (h in todo || !(old(clients)[h].last < cutoff))
        invariant forall h <- clients.Keys :: clients[h] == old(clients)[h]
        decreases todo
      {
        var k :| k in todo;
        if clients[k].last < cutoff {
          clients := clients - {k};
        }
        todo := todo - {k};
      }
    }

    /** Whether the request is passed on; afterwards idle buckets may have been evicted. */
    method ServeHTTP(host: string, loopback: bool, createdAt: real, now: real, pruneAt: real) returns (admitted: bool)
      modifies this
      ensures admitted == Admits(old(clients), Request(host, loopback, createdAt, now))
      ensures var served := Step(old(clients), Request(host, loopback, createdAt, now));
              clients == if !loopback && admitted && |served| > MANY_CLIENTS
                         then Step(served, Evict(pruneAt, pruneAt)) else served
    {
      if loopback {
        return true;
      }
      var state := if host in clients then clients[host] else Bucket(BURST, createdAt);
      state := state.(tokens := state.tokens + (now - state.last) * RATE);
      if state.tokens > BURST {
        state := state.(tokens := BURST);
      }
      state := state.(last := now);
      if state.tokens < 1.0 {
        clients := clients[host := state];
        return false;
      }
      state := state.(tokens := state.tokens - 1.0);
      clients := clients[host := state];
      if |clients| > MANY_CLIENTS {
        PruneIdle(pruneAt);
      }
      admitted := true;
    }
  }
}
