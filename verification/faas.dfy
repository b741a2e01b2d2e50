/** Scaling of serverless functions with rollback (internal/orchestrator/faas.go).  Whether a
    container can be saved, started and removed is an outcome of the environment. */
module Functions {
  import Splitting

  /** What creating one more container meets. */
  datatype Creation = Cancelled | SaveFailed | StartFailed(id: string) | Started(id: string)

  /** What the scheduler knows of one function, and which containers exist at all. */
  datatype Pool = Pool(tracked: seq<string>, active: int, existing: set<string>)

  /** The first of the creations from `i` on that does not end with a running container, or `count`. */
  function StopsAt(cs: seq<Creation>, count: nat, i: nat): (k: nat)
    requires i <= count <= |cs|
    ensures i <= k <= count
    decreases count - i
  {
    if i == count || !cs[i].Started? then i else StopsAt(cs, count, i + 1)
  }

  predicate Succeeds(cs: seq<Creation>, count: nat)
    requires count <= |cs|
  {
    StopsAt(cs, count, 0) == count
  }

  /** The containers saved by the creations from `i` on, in order. */
  function Created(cs: seq<Creation>, count: nat, i: nat): seq<string>
    requires i <= count <= |cs|
    decreases count - i
  {
    if i == count then []
    else match cs[i]
      case Started(id) => [id] + Created(cs, count, i + 1)
      case StartFailed(id) => [id]
      case _ => []
  }

  /** `ids` without those in `out`. */
  function Keep(ids: seq<string>, out: set<string>): (kept: seq<string>)
    decreases |ids|
  {
    if ids == [] then []
    else Keep(ids[..|ids| - 1], out) + if ids[|ids| - 1] in out then [] else [ids[|ids| - 1]]
  }

  function AsSet(ids: seq<string>): set<string> { set id | id in ids }

  ghost predicate Distinct(ids: seq<string>) { forall k, l :: 0 <= k < l < |ids| ==> ids[k] != ids[l] }

  /** Scaling up by `count`; `broken` are the containers whose removal fails. */
  function ScaleUp(p: Pool, cs: seq<Creation>, count: nat, broken: set<string>): Pool
    requires count <= |cs|
  {
    var ids := Created(cs, count, 0);
    if Succeeds(cs, count) then Pool(p.tracked + ids, p.active + count, p.existing + AsSet(ids))
    else if ids == [] then p
    else
      var tracked := p.tracked + Keep(ids, AsSet(ids) - broken);
      Pool(tracked, |tracked|, (p.existing + AsSet(ids)) - (AsSet(ids) - broken))
  }

  /** Removal of all containers; `stop` is where the context ends, if it does. */
  function ScaleDown(p: Pool, stop: nat, broken: set<string>): Pool {
    if stop < |p.tracked| then p.(existing := p.existing - (AsSet(p.tracked[..stop]) - broken))
    else Pool([], 0, p.existing - (AsSet(p.tracked) - broken))
  }

  lemma {:induction false} AsSetAppend(ids: seq<string>, id: string)
    ensures AsSet(ids + [id]) == AsSet(ids) + {id}
  {
  }

  /** Where a failed scale-up ends, once the rollback is done. */
  lemma {:induction false} RolledBack(p: Pool, cs: seq<Creation>, count: nat, broken: set<string>, q: Pool)
    requires count <= |cs| && !Succeeds(cs, count)
    requires var ids := Created(cs, count, 0);
             && (ids == [] ==> q == p)
             && (ids != [] ==>
                   var tracked := p.tracked + Keep(ids, AsSet(ids) - broken);
                   q == Pool(tracked, |tracked|, (p.existing + AsSet(ids)) - (AsSet(ids) - broken)))
    ensures q == ScaleUp(p, cs, count, broken)
  {
  }

  // ---------------------------------------------------------------- filtering

  lemma {:induction false} KeepContains(ids: seq<string>, out: set<string>, id: string)
    ensures id in Keep(ids, out) <==> id in ids && id !in out
    decreases |ids|
  {
    if ids != [] {
      KeepContains(ids[..|ids| - 1], out, id);
      assert ids == ids[..|ids| - 1] + [ids[|ids| - 1]];
    }
  }

  lemma {:induction false} KeepAll(ids: seq<string>, out: set<string>)
    requires forall id <- ids :: id !in out
    ensures Keep(ids, out) == ids
    decreases |ids|
  {
    if ids != [] {
      KeepAll(ids[..|ids| - 1], out);
      assert ids[|ids| - 1] in ids;
    }
  }

  lemma {:induction false} KeepAppend(a: seq<string>, b: seq<string>, out: set<string>)
    ensures Keep(a + b, out) == Keep(a, out) + Keep(b, out)
    decreases |b|
  {
    if b == [] {
      assert a + b == a;
    } else {
      assert (a + b)[..|a + b| - 1] == a + b[..|b| - 1];
      KeepAppend(a, b[..|b| - 1], out);
    }
  }

  // ---------------------------------------------------------------- what every operation keeps

  ghost predicate Consistent(p: Pool) { p.active == |p.tracked| }

  lemma {:induction false} CreatedLength(cs: seq<Creation>, count: nat, i: nat)
    requires i <= count <= |cs|
    ensures StopsAt(cs, count, i) == count ==> |Created(cs, count, i)| == count - i
    decreases count - i
  {
    if i < count && cs[i].Started? {
      CreatedLength(cs, count, i + 1);
    }
  }

  /** When the count of active containers is that of the tracked ones, it is so after every
      scale-up, failed or not, and after every scale-down, cancelled or not. */
  lemma {:induction false} CountsAgree(p: Pool, cs: seq<Creation>, count: nat, broken: set<string>, stop: nat)
    requires count <= |cs| && Consistent(p)
    ensures Consistent(ScaleUp(p, cs, count, broken)) && Consistent(ScaleDown(p, stop, broken))
  {
    CreatedLength(cs, count, 0);
  }

  /** A scale-up that fails or is cancelled leaves tracked exactly the earlier containers, in their
      order, and those created in this call whose removal failed: none is tracked that was undone,
      and none is lost. */
  lemma {:induction false} FailedScaleUp(p: Pool, cs: seq<Creation>, count: nat, broken: set<string>, id: string)
    requires count <= |cs| && !Succeeds(cs, count)
    ensures var ids, q := Created(cs, count, 0), ScaleUp(p, cs, count, broken);
            && p.tracked <= q.tracked
            && (id in q.tracked <==> id in p.tracked || (id in ids && id in broken))
            && (id !in p.existing && id in q.existing ==> id in q.tracked)
            && (id in ids && id !in broken ==> id !in q.existing)
  {
    var ids := Created(cs, count, 0);
    KeepContains(ids, AsSet(ids) - broken, id);
  }

  /** When every removal works, a failed scale-up of new containers undoes itself. */
  lemma {:induction false} RollbackRestores(p: Pool, cs: seq<Creation>, count: nat, broken: set<string>)
    requires count <= |cs| && !Succeeds(cs, count) && Consistent(p)
    requires forall id <- Created(cs, count, 0) :: id !in p.existing && id !in broken
    ensures ScaleUp(p, cs, count, broken) == p
  {
    var ids := Created(cs, count, 0);
    var kept := Keep(ids, AsSet(ids) - broken);
    assert kept == [] by {
      if kept != [] {
        KeepContains(ids, AsSet(ids) - broken, kept[0]);
      }
    }
    assert p.tracked + [] == p.tracked;
  }

  /** A completed scale-down forgets every container, so one stays behind untracked exactly when
      its removal failed; a cancelled one changes neither the list nor the count. */
  lemma {:induction false} ScaleDownLeaks(p: Pool, stop: nat, broken: set<string>, id: string)
    requires id in p.tracked && id in p.existing
    ensures var q := ScaleDown(p, stop, broken);
            && (stop < |p.tracked| ==> q.tracked == p.tracked && q.active == p.active)
            && (stop >= |p.tracked| ==> q.tracked == [] && q.active == 0 && (id in q.existing <==> id in broken))
  {
  }

  // ---------------------------------------------------------------- the scheduler

  class Function {
    const name: string
    var activeContainers: int

    constructor (name: string)
      ensures this.name == name && activeContainers == 0
    {
      this.name := name;
      activeContainers := 0;
    }
  }

  class Scheduler {
    /** A function without containers has no entry, or an empty one. */
    var functionContainers: map<string, seq<string>>
    var existing: set<string>

    function Tracked(name: string): seq<string>
      reads this
    {
      if name in functionContainers then functionContainers[name] else []
    }

    ghost function PoolOf(fn: Function): Pool
      reads this, fn
    {
      Pool(Tracked(fn.name), fn.activeContainers, existing)
    }

    ghost predicate OthersKept(before: map<string, seq<string>>, name: string)
      reads this
    {
      forall other :: other != name ==>
        (other in functionContainers <==> other in before)
        && (other in before ==> functionContainers[other] == before[other])
    }

    /** `createdIDs` were saved in this call; all of them are tracked behind `earlier`, except
        possibly the last one, which did not start. */
    method RollbackFunctionContainers(fn: Function, createdIDs: seq<string>, broken: set<string>,
        ghost earlier: seq<string>)
      requires Distinct(createdIDs) && forall id <- createdIDs :: id !in earlier
      requires Tracked(fn.name) == earlier + createdIDs
               || (createdIDs != [] && Tracked(fn.name) == earlier + createdIDs[..|createdIDs| - 1])
      modifies this, fn
      ensures OthersKept(old(functionContainers), fn.name)
      ensures createdIDs == [] ==> PoolOf(fn) == old(PoolOf(fn))
      ensures createdIDs != [] ==>
                var tracked := earlier + Keep(createdIDs, AsSet(createdIDs) - broken);
                PoolOf(fn) == Pool(tracked, |tracked|, old(existing) - (AsSet(createdIDs) - broken))
    {
      if |createdIDs| == 0 {
        return;
      }
      var failed := RemoveCreated(createdIDs, broken);
      var current := Tracked(fn.name);
      var remaining := Retained(current, createdIDs, failed, broken);
      FirstPass(earlier, createdIDs, current, broken);
      remaining := AddFailed(remaining, failed, createdIDs, broken, earlier, current);
      Record(fn, remaining);
    }

    method Record(fn: Function, remaining: seq<string>)
      modifies this`functionContainers, fn
      ensures Tracked(fn.name) == remaining && fn.activeContainers == |remaining|
      ensures OthersKept(old(functionContainers), fn.name)
    {
      if |remaining| == 0 {
        functionContainers := functionContainers - {fn.name};
      } else {
        functionContainers := functionContainers[fn.name := remaining];
      }
      fn.activeContainers := |remaining|;
    }

    /** Removes the created containers; returns those whose removal failed. */
    method RemoveCreated(createdIDs: seq<string>, broken: set<string>) returns (failed: set<string>)
      modifies this`existing
      ensures failed == AsSet(createdIDs) * broken
      ensures existing == old(existing) - (AsSet(createdIDs) - broken)
    {
      failed := {};
      var i := 0;
      while i < |createdIDs|
        invariant 0 <= i <= |createdIDs| && failed == AsSet(createdIDs[..i]) * broken
        invariant existing == old(existing) - (AsSet(createdIDs[..i]) - broken)
      {
        assert AsSet(createdIDs[..i + 1]) == AsSet(createdIDs[..i]) + {createdIDs[i]};
        if createdIDs[i] in broken {
          failed := failed + {createdIDs[i]};
        } else {
          existing := existing - {createdIDs[i]};
        }
        i := i + 1;
      }
      assert createdIDs[..i] == createdIDs;
    }

    /** The tracked containers that were not created in this call, or could not be removed. */
    method Retained(current: seq<string>, createdIDs: seq<string>, failed: set<string>, ghost broken: set<string>)
        returns (remaining: seq<string>)
      requires failed == AsSet(createdIDs) * broken
      ensures remaining == Keep(current, AsSet(createdIDs) - broken)
    {
      remaining := [];
      var i := 0;
      while i < |current|
        invariant 0 <= i <= |current| && remaining == Keep(current[..i], AsSet(createdIDs) - broken)
      {
        assert current[..i + 1][..i] == current[..i];
        if current[i] !in createdIDs || current[i] in failed {
          remaining := remaining + [current[i]];
        }
        i := i + 1;
      }
      assert current[..i] == current;
    }

    /** The failed removals that are not in the list yet: at most the container that never started. */
    method AddFailed(known: seq<string>, failed: set<string>, ghost createdIDs: seq<string>, ghost broken: set<string>,
        ghost earlier: seq<string>, ghost current: seq<string>) returns (remaining: seq<string>)
      requires createdIDs != [] && failed == AsSet(createdIDs) * broken
      requires known == Keep(current, AsSet(createdIDs) - broken)
      requires current == earlier + createdIDs || current == earlier + createdIDs[..|createdIDs| - 1]
      requires Distinct(createdIDs) && forall id <- createdIDs :: id !in earlier
      ensures remaining == earlier + Keep(createdIDs, AsSet(createdIDs) - broken)
    {
      ghost var last := createdIDs[|createdIDs| - 1];
      remaining := known;
      var todo := failed;
      while todo != {}
        invariant todo <= failed
        invariant remaining == known + if last in failed && last !in todo && last !in known then [last] else []
        decreases todo
      {
        var id :| id in todo;
        FailedIsKnown(createdIDs, broken, earlier, current, id);
        if id !in remaining {
          remaining := remaining + [id];
        }
        todo := todo - {id};
      }
      LastOne(createdIDs, broken, earlier, current);
    }

    method Track(fn: Function, id: string)
      modifies this`functionContainers, fn
      ensures Tracked(fn.name) == old(Tracked(fn.name)) + [id] && fn.activeContainers == old(fn.activeContainers) + 1
      ensures OthersKept(old(functionContainers), fn.name)
    {
      fn.activeContainers := fn.activeContainers + 1;
      functionContainers := functionContainers[fn.name := Tracked(fn.name) + [id]];
    }

    /** After `ids` were created behind `earlier`, all of them started. */
    ghost predicate Behind(fn: Function, earlier: seq<string>, active: int, others: set<string>, ids: seq<string>)
      reads this, fn
    {
      && Tracked(fn.name) == earlier + ids && fn.activeContainers == active + |ids|
      && existing == others + AsSet(ids)
    }

    /** One more started container. */
    method KeepStarted(fn: Function, id: string, ghost earlier: seq<string>, ghost active: int, ghost others: set<string>,
        createdIDs: seq<string>) returns (ids: seq<string>)
      requires Behind(fn, earlier, active, others, createdIDs)
      modifies this, fn
      ensures ids == createdIDs + [id] && Behind(fn, earlier, active, others, ids)
      ensures OthersKept(old(functionContainers), fn.name)
    {
      AsSetAppend(createdIDs, id);
      Splitting.Assoc(earlier, createdIDs, [id]);
      existing := existing + {id};
      ids := createdIDs + [id];
      Track(fn, id);
    }

    /** The creation loop, up to the first failure: every started container is counted and tracked. */
    method CreateContainers(fn: Function, cs: seq<Creation>, count: nat) returns (createdIDs: seq<string>, ok: bool)
      requires count <= |cs|
      modifies this, fn
      ensures createdIDs == Created(cs, count, 0) && ok == Succeeds(cs, count)
      ensures Tracked(fn.name) == old(Tracked(fn.name)) + createdIDs
              || (!ok && createdIDs != [] && Tracked(fn.name) == old(Tracked(fn.name)) + createdIDs[..|createdIDs| - 1])
      ensures ok ==> Tracked(fn.name) == old(Tracked(fn.name)) + createdIDs
      ensures ok || createdIDs == [] ==> fn.activeContainers == old(fn.activeContainers) + |createdIDs|
      ensures existing == old(existing) + AsSet(createdIDs) && OthersKept(old(functionContainers), fn.name)
    {
      ghost var earlier, active, others := Tracked(fn.name), fn.activeContainers, existing;
      createdIDs := [];
      var i := 0;
      while i < count
        invariant 0 <= i <= count && Created(cs, count, 0) == createdIDs + Created(cs, count, i)
        invariant StopsAt(cs, count, 0) == StopsAt(cs, count, i)
        invariant Behind(fn, earlier, active, others, createdIDs) && OthersKept(old(functionContainers), fn.name)
      {
        match cs[i] {
          case Cancelled => return createdIDs, false;
          case SaveFailed => return createdIDs, false;
          case StartFailed(id) =>
            existing := existing + {id};
            AsSetAppend(createdIDs, id);
            createdIDs := createdIDs + [id];
            return createdIDs, false;
          case Started(id) =>
            Splitting.Assoc(createdIDs, [id], Created(cs, count, i + 1));
            createdIDs := KeepStarted(fn, id, earlier, active, others, createdIDs);
        }
        i := i + 1;
      }
      ok := true;
    }

    method ScaleUpFunction(fn: Function, cs: seq<Creation>, count: nat, broken: set<string>) returns (ok: bool)
      requires count <= |cs|
      requires Distinct(Created(cs, count, 0)) && forall id <- Created(cs, count, 0) :: id !in Tracked(fn.name)
      modifies this, fn
      ensures ok == Succeeds(cs, count) && PoolOf(fn) == ScaleUp(old(PoolOf(fn)), cs, count, broken)
      ensures OthersKept(old(functionContainers), fn.name)
    {
      ghost var before, earlier := PoolOf(fn), Tracked(fn.name);
      var createdIDs;
      createdIDs, ok := CreateContainers(fn, cs, count);
      if ok {
        CreatedLength(cs, count, 0);
      } else {
        RollbackFunctionContainers(fn, createdIDs, broken, earlier);
        RolledBack(before, cs, count, broken, PoolOf(fn));
      }
    }

    method ScaleDownFunction(fn: Function, stop: nat, broken: set<string>)
      modifies this, fn
      ensures PoolOf(fn) == ScaleDown(old(PoolOf(fn)), stop, broken)
      ensures OthersKept(old(functionContainers), fn.name)
    {
      var containers := Tracked(fn.name);
      var i := 0;
      while i < |containers|
        invariant 0 <= i <= |containers| && i <= stop
        invariant functionContainers == old(functionContainers) && fn.activeContainers == old(fn.activeContainers)
        invariant existing == old(existing) - (AsSet(containers[..i]) - broken)
      {
        if i == stop {
          return;
        }
        assert AsSet(containers[..i + 1]) == AsSet(containers[..i]) + {containers[i]};
        if containers[i] !in broken {
          existing := existing - {containers[i]};
        }
        i := i + 1;
      }
      assert containers[..i] == containers;
      functionContainers := functionContainers - {fn.name};
      fn.activeContainers := 0;
    }
  }

  // ---------------------------------------------------------------- the rollback's list

  /** What the first pass over the tracked list keeps. */
  lemma {:induction false} FirstPass(earlier: seq<string>, ids: seq<string>, current: seq<string>, broken: set<string>)
    requires forall id <- ids :: id !in earlier
    requires current == earlier + ids || (ids != [] && current == earlier + ids[..|ids| - 1])
    ensures var out := AsSet(ids) - broken;
            Keep(current, out) == earlier + Keep(current[|earlier|..], out)
  {
    var out := AsSet(ids) - broken;
    KeepAppend(earlier, current[|earlier|..], out);
    KeepAll(earlier, out);
    assert current == earlier + current[|earlier|..];
  }

  lemma {:induction false} FailedIsKnown(ids: seq<string>, broken: set<string>, earlier: seq<string>, current: seq<string>, id: string)
    requires ids != [] && id in ids && id in broken
    requires current == earlier + ids || current == earlier + ids[..|ids| - 1]
    ensures id in Keep(current, AsSet(ids) - broken) || id == ids[|ids| - 1]
  {
    KeepContains(current, AsSet(ids) - broken, id);
    assert ids == ids[..|ids| - 1] + [ids[|ids| - 1]];
  }

  lemma {:induction false} LastOne(ids: seq<string>, broken: set<string>, earlier: seq<string>, current: seq<string>)
    requires ids != [] && Distinct(ids) && forall id <- ids :: id !in earlier
    requires current == earlier + ids || current == earlier + ids[..|ids| - 1]
    ensures var out, last := AsSet(ids) - broken, ids[|ids| - 1];
            earlier + Keep(ids, out) ==
            Keep(current, out) + if last in broken && last !in Keep(current, out) then [last] else []
  {
    var out, last := AsSet(ids) - broken, ids[|ids| - 1];
    KeepContains(current, out, last);
    FirstPass(earlier, ids, current, broken);
    assert last in ids;
    if current == earlier + ids {
      assert current[|earlier|..] == ids;
    } else {
      assert current[|earlier|..] == ids[..|ids| - 1];
      assert last !in current;
    }
  }
}
