/** The loops of internal/orchestrator/scheduler.go and service.go over the cluster's state. */
module Orchestrator {
  import opened RollingUpdate
  import opened Reconcile
  import opened Wrappers

  /** A missing update configuration is `UpdateConfig(0, 0, "")`. */
  datatype UpdateConfig = UpdateConfig(parallelism: int, delay: int, order: string)

  predicate StartsFirst(cfg: UpdateConfig) { cfg.order == "start-first" }

  /** With `history` behind it, the rest `u` of an update ends as the whole one does. */
  ghost predicate OnTrack(whole: Rollout, base: seq<World>, history: seq<World>, u: Rollout) {
    && whole.world == u.world && whole.result == u.result && whole.replaced == u.replaced
    && base + whole.history == history + u.history
  }

  lemma {:induction false} OnTrackFromStart(whole: Rollout, base: seq<World>)
    ensures OnTrack(whole, base, base, whole)
  {
  }

  /** One more replica, or a failure at this one. */
  lemma {:induction false} OnTrackAfterOne(whole: Rollout, base: seq<World>, history: seq<World>, w: World, rs: seq<Replica>, ts: seq<Turn>,
      i: nat, startFirst: bool, image: string, one: Rollout)
    requires i < |rs| <= |ts| && !ts[i].cancelled && one == ReplaceOne(w, rs[i], ts[i], startFirst, image)
    requires OnTrack(whole, base, history, Update(w, rs, ts, i, startFirst, image))
    ensures one.result == Completed ==>
              OnTrack(whole, base, history + one.history, Update(one.world, rs, ts, i + 1, startFirst, image))
    ensures one.result != Completed ==>
              whole.world == one.world && whole.result == one.result && base + whole.history == history + one.history
  {
    if one.result == Completed {
      var rest := Update(one.world, rs, ts, i + 1, startFirst, image);
      assert history + (one.history + rest.history) == history + one.history + rest.history;
    }
  }

  /** The update stops here: cancelled, or no replica is left. */
  lemma {:induction false} OnTrackAtEnd(whole: Rollout, base: seq<World>, history: seq<World>, w: World, rs: seq<Replica>, ts: seq<Turn>,
      i: nat, startFirst: bool, image: string)
    requires i <= |rs| <= |ts| && (i < |rs| ==> ts[i].cancelled)
    requires OnTrack(whole, base, history, Update(w, rs, ts, i, startFirst, image))
    ensures whole.world == w && whole.result == (if i == |rs| then Completed else Cancelled)
    ensures base + whole.history == history
  {
    assert history + [] == history;
  }

  lemma {:induction false} Quotient(n: nat, p: nat) returns (q: nat)
    requires p > 0
    ensures q == n / p && q * p <= n < q * p + p
  {
    q := n / p;
  }

  lemma {:induction false} Scaled(a: nat, b: nat, p: nat)
    requires a <= b
    ensures a * p <= b * p
  {
  }

  /** After batch number `b` there is another one exactly when it ends before the last replica. */
  lemma {:induction false} LastBatch(n: nat, p: nat, b: nat)
    requires p > 0
    ensures b + 1 < (n + p - 1) / p <==> b * p + p < n
    ensures (b + 1) * p == b * p + p
  {
    var q := Quotient(n + p - 1, p);
    assert (b + 1) * p == b * p + p;
    if b + 1 < q {
      Scaled(b + 2, q, p);
      assert (b + 2) * p == b * p + p + p;
    } else {
      Scaled(q, b + 1, p);
    }
  }

  class Cluster {
    var live: map<string, string>
    var records: map<string, Record>
    var serviceImage: string
    ghost var history: seq<World>

    ghost function Now(): World
      reads this
    {
      World(live, records)
    }

    method ScheduleReplica(image: string, p: Placement) returns (ok: bool)
      modifies this
      ensures ok == p.Placed? && Now() == Schedule(old(Now()), image, p)
      ensures history == old(history) + [Now()] && serviceImage == old(serviceImage)
    {
      match p {
        case Placed(id, c, node, at) =>
          live := live[c := image];
          records := records[id := Record(c, node, RUNNING, at)];
          ok := true;
        case NotPlaced(None) =>
          ok := false;
        case NotPlaced(Some(c)) =>
          live := live[c := image];
          ok := false;
      }
      history := history + [Now()];
    }

    method RemoveRemoteReplica(c: string, o: Removal) returns (ok: bool)
      modifies this
      ensures ok == o.Removed? && Now() == RemoveContainer(old(Now()), c, o)
      ensures history == old(history) + [Now()] && serviceImage == old(serviceImage)
    {
      ok := o.Removed?;
      if ok || o.killed {
        live := live - {c};
      }
      history := history + [Now()];
    }

    method RemoveReplicaState(id: string)
      modifies this
      ensures Now() == Forget(old(Now()), id)
      ensures history == old(history) && serviceImage == old(serviceImage)
    {
      records := records - {id};
    }

    method ReplaceReplica(r: Replica, t: Turn, startFirst: bool, image: string) returns (result: Outcome)
      modifies this
      ensures var one := ReplaceOne(old(Now()), r, t, startFirst, image);
              result == one.result && Now() == one.world && history == old(history) + one.history
      ensures serviceImage == old(serviceImage)
    {
      if startFirst {
        var started := ScheduleReplica(image, t.placement);
        if !started {
          return StartFailed;
        }
        var removed := RemoveRemoteReplica(r.record.containerId, t.removal);
        if !removed {
          return RemoveFailed;
        }
        RemoveReplicaState(r.id);
      } else {
        var removed := RemoveRemoteReplica(r.record.containerId, t.removal);
        if !removed {
          return RemoveFailed;
        }
        var started := ScheduleReplica(image, t.placement);
        if !started {
          return StartFailed;
        }
        RemoveReplicaState(r.id);
      }
      result := Completed;
    }

    /** The replicas of one batch. */
    method UpdateBatch(rs: seq<Replica>, ts: seq<Turn>, i: nat, end: nat, startFirst: bool, image: string,
        ghost whole: Rollout, ghost base: seq<World>) returns (result: Outcome)
      requires i <= end <= |rs| <= |ts|
      requires OnTrack(whole, base, history, Update(Now(), rs, ts, i, startFirst, image))
      modifies this
      ensures serviceImage == old(serviceImage)
      ensures result == Completed ==> OnTrack(whole, base, history, Update(Now(), rs, ts, end, startFirst, image))
      ensures result != Completed ==>
                whole.world == Now() && whole.result == result && base + whole.history == history
    {
      var j: nat := i;
      while j < end
        invariant i <= j <= end && serviceImage == old(serviceImage)
        invariant OnTrack(whole, base, history, Update(Now(), rs, ts, j, startFirst, image))
        decreases end - j
      {
        if ts[j].cancelled {
          OnTrackAtEnd(whole, base, history, Now(), rs, ts, j, startFirst, image);
          return Cancelled;
        }
        ghost var one := ReplaceOne(Now(), rs[j], ts[j], startFirst, image);
        OnTrackAfterOne(whole, base, history, Now(), rs, ts, j, startFirst, image, one);
        var outcome := ReplaceReplica(rs[j], ts[j], startFirst, image);
        if outcome != Completed {
          return outcome;
        }
        j := j + 1;
      }
      result := Completed;
    }

    /** The batches.  `expires[k]` says that the context ends while waiting before replica `k`; an
        ended context stays ended.  The parallelism does not show in the outcome. */
    method RollingUpdateService(cfg: UpdateConfig, rs: seq<Replica>, ts: seq<Turn>, expires: seq<bool>, image: string)
        returns (result: Outcome)
      requires |rs| <= |ts| && |expires| == |ts| && forall k :: 0 <= k < |ts| && expires[k] ==> ts[k].cancelled
      modifies this
      ensures var u := Update(old(Now()), rs, ts, 0, StartsFirst(cfg), image);
              result == u.result && Now() == u.world && history == old(history) + u.history
      ensures serviceImage == if result == Completed then image else old(serviceImage)
    {
      var parallelism: nat := if cfg.parallelism > 0 then cfg.parallelism else 1;
      var delaySec := if cfg.delay > 0 then cfg.delay else 0;
      var startFirst := cfg.order == "start-first";
      ghost var base, whole := history, Update(Now(), rs, ts, 0, startFirst, image);
      OnTrackFromStart(whole, base);
      var batch: nat := 0;
      var i: nat := 0;
      while i < |rs|
        invariant i <= |rs| && (i < |rs| ==> i == batch * parallelism)
        invariant OnTrack(whole, base, history, Update(Now(), rs, ts, i, startFirst, image))
        invariant serviceImage == old(serviceImage)
        decreases |rs| - i
      {
        var end := if i + parallelism > |rs| then |rs| else i + parallelism;
        LastBatch(|rs|, parallelism, batch);
        batch := batch + 1;
        var outcome := UpdateBatch(rs, ts, i, end, startFirst, image, whole, base);
        if outcome != Completed {
          return outcome;
        }
        if delaySec > 0 && batch < (|rs| + parallelism - 1) / parallelism {
          if expires[end] {
            OnTrackAtEnd(whole, base, history, Now(), rs, ts, end, startFirst, image);
            return Cancelled;
          }
        }
        i := end;
      }
      OnTrackAtEnd(whole, base, history, Now(), rs, ts, i, startFirst, image);
      serviceImage := image;
      result := Completed;
    }

    method ReconcileScaleUp(image: string, count: int, ts: seq<Attempt>)
      requires Size(count) <= |ts|
      modifies this
      ensures Now() == ScaleUp(old(Now()), image, count, ts, 0) && serviceImage == old(serviceImage)
    {
      var i := 0;
      while i < count
        invariant 0 <= i <= Size(count) && serviceImage == old(serviceImage)
        invariant ScaleUp(Now(), image, count - i, ts, i) == ScaleUp(old(Now()), image, count, ts, 0)
        decreases count - i
      {
        if ts[i].cancelled {
          return;
        }
        var placed := ScheduleReplica(image, ts[i].placement);
        i := i + 1;
      }
    }

    /** `sorted` is what sort.Slice makes of the listing. */
    method ReconcileScaleDown(sorted: seq<Replica>, count: int, ts: seq<Drop>)
      requires |sorted| <= |ts|
      modifies this
      ensures Now() == ScaleDown(old(Now()), sorted, count, ts, 0) && serviceImage == old(serviceImage)
    {
      var i := 0;
      while i < count && i < |sorted|
        invariant 0 <= i <= |sorted| && serviceImage == old(serviceImage)
        invariant ScaleDown(Now(), sorted, count, ts, i) == ScaleDown(old(Now()), sorted, count, ts, 0)
        decreases |sorted| - i
      {
        if ts[i].cancelled {
          return;
        }
        var removed := RemoveRemoteReplica(sorted[i].record.containerId, ts[i].removal);
        if removed {
          RemoveReplicaState(sorted[i].id);
        }
        i := i + 1;
      }
    }

    method ReconcileService(desired: int, listing: seq<Replica>, sorted: seq<Replica>, ups: seq<Attempt>, downs: seq<Drop>)
      requires |sorted| <= |downs| && Size(desired) <= |ups|
      modifies this
      ensures Now() == Pass(old(Now()), desired, old(serviceImage), listing, sorted, ups, downs)
      ensures serviceImage == old(serviceImage)
    {
      var running := 0;
      var k := 0;
      while k < |listing|
        invariant 0 <= k <= |listing| && running + CountRunning(listing, k) == CountRunning(listing, 0)
        invariant running >= 0
      {
        if listing[k].record.status == RUNNING {
          running := running + 1;
        }
        k := k + 1;
      }
      if running < desired {
        ReconcileScaleUp(serviceImage, desired - running, ups);
      } else if running > desired {
        ReconcileScaleDown(sorted, running - desired, downs);
      }
    }
  }
}
