/** Rolling update and reconciliation of service replicas (internal/orchestrator/scheduler.go and
    service.go).  What placing and removing a container does is an outcome of the environment: a
    failed placement may leave a container running, a failed removal may have killed it. */
module RollingUpdate {
  import opened Wrappers

  datatype Record = Record(containerId: string, node: string, status: string, createdAt: int)

  datatype Replica = Replica(id: string, record: Record)

  /** The running containers with their images, and the replica records on disk. */
  datatype World = World(live: map<string, string>, records: map<string, Record>)

  datatype Placement = Placed(id: string, containerId: string, node: string, at: int) | NotPlaced(orphan: Option<string>)

  datatype Removal = Removed | NotRemoved(killed: bool)

  /** What one replica's turn meets: the context, the placement and the removal. */
  datatype Turn = Turn(cancelled: bool, placement: Placement, removal: Removal)

  function Schedule(w: World, image: string, p: Placement): World {
    match p
    case Placed(id, c, node, at) => World(w.live[c := image], w.records[id := Record(c, node, "running", at)])
    case NotPlaced(None) => w
    case NotPlaced(Some(c)) => w.(live := w.live[c := image])
  }

  function RemoveContainer(w: World, c: string, o: Removal): World {
    if o.Removed? || o.killed then w.(live := w.live - {c}) else w
  }

  function Forget(w: World, id: string): World { w.(records := w.records - {id}) }

  // ---------------------------------------------------------------- rolling update

  datatype Outcome = Completed | Cancelled | StartFailed | RemoveFailed

  /** Where an update ends, how many replicas it replaced, and every world on the way. */
  datatype Rollout = Rollout(world: World, result: Outcome, replaced: nat, history: seq<World>)

  /** One replica: its replacement is started before or after it is removed. */
  function ReplaceOne(w: World, r: Replica, t: Turn, startFirst: bool, image: string): Rollout {
    if startFirst then
      var w1 := Schedule(w, image, t.placement);
      if t.placement.NotPlaced? then Rollout(w1, StartFailed, 0, [w1])
      else
        var w2 := RemoveContainer(w1, r.record.containerId, t.removal);
        if t.removal.NotRemoved? then Rollout(w2, RemoveFailed, 0, [w1, w2])
        else Rollout(Forget(w2, r.id), Completed, 1, [w1, w2])
    else
      var w1 := RemoveContainer(w, r.record.containerId, t.removal);
      if t.removal.NotRemoved? then Rollout(w1, RemoveFailed, 0, [w1])
      else
        var w2 := Schedule(w1, image, t.placement);
        if t.placement.NotPlaced? then Rollout(w2, StartFailed, 0, [w1, w2])
        else Rollout(Forget(w2, r.id), Completed, 1, [w1, w2])
  }

  /** The update from replica `i` on. */
  function Update(w: World, rs: seq<Replica>, ts: seq<Turn>, i: nat, startFirst: bool, image: string): Rollout
    requires i <= |rs| <= |ts|
    decreases |rs| - i
  {
    if i == |rs| then Rollout(w, Completed, i, [])
    else if ts[i].cancelled then Rollout(w, Cancelled, i, [])
    else
      var one := ReplaceOne(w, rs[i], ts[i], startFirst, image);
      if one.result != Completed then one.(replaced := i)
      else
        var rest := Update(one.world, rs, ts, i + 1, startFirst, image);
        rest.(history := one.history + rest.history)
  }

  function NewContainer(p: Placement): Option<string> {
    match p
    case Placed(_, c, _, _) => Some(c)
    case NotPlaced(o) => o
  }

  /** Generated identifiers are new, and no two are the same. */
  ghost predicate Fresh(w: World, ts: seq<Turn>, i: nat) {
    && (forall k :: i <= k < |ts| ==>
          && (NewContainer(ts[k].placement).Some? ==> NewContainer(ts[k].placement).value !in w.live)
          && (ts[k].placement.Placed? ==> ts[k].placement.id !in w.records))
    && (forall k, l :: i <= k < l < |ts| ==>
          && (NewContainer(ts[k].placement).Some? ==> NewContainer(ts[k].placement) != NewContainer(ts[l].placement))
          && (ts[k].placement.Placed? && ts[l].placement.Placed? ==> ts[k].placement.id != ts[l].placement.id))
  }

  /** The replicas from `i` on are recorded and running, each in a container of its own. */
  ghost predicate Serving(w: World, rs: seq<Replica>, i: nat) {
    && (forall k :: i <= k < |rs| ==>
          rs[k].record.containerId in w.live && rs[k].id in w.records && w.records[rs[k].id] == rs[k].record)
    && (forall k, l :: i <= k < l < |rs| ==>
          rs[k].id != rs[l].id && rs[k].record.containerId != rs[l].record.containerId)
  }

  /** A step's number of live containers: start-first never goes below `n`, stop-first never above. */
  ghost predicate InBounds(w: World, n: int, startFirst: bool) {
    if startFirst then n <= |w.live| <= n + 1 else n - 1 <= |w.live| <= n
  }

  ghost predicate AllInBounds(history: seq<World>, n: int, startFirst: bool) {
    forall k :: 0 <= k < |history| ==> InBounds(history[k], n, startFirst)
  }

  /** The new container runs the new image instead of the old one, recorded under a new name. */
  function Swapped(w: World, r: Replica, p: Placement, image: string): World
    requires p.Placed?
  {
    World(w.live[p.containerId := image] - {r.record.containerId},
          w.records[p.id := Record(p.containerId, p.node, "running", p.at)] - {r.id})
  }

  /** A replica completes exactly when both its effects succeed. */
  predicate Works(t: Turn) { t.placement.Placed? && t.removal.Removed? }

  lemma {:induction false} OneWorks(w: World, r: Replica, t: Turn, startFirst: bool, image: string)
    ensures var one := ReplaceOne(w, r, t, startFirst, image);
            (one.result == Completed <==> Works(t)) && one.result != Cancelled
  {
  }

  /** A replica and its replacement have names of their own. */
  predicate Separate(r: Replica, p: Placement) {
    NewContainer(p) != Some(r.record.containerId) && (p.Placed? ==> p.id != r.id)
  }

  /** Both orders come to the same world, and complete in the same circumstances. */
  lemma {:induction false} OneCompletes(w: World, r: Replica, t: Turn, startFirst: bool, image: string)
    requires Separate(r, t.placement)
    ensures var one := ReplaceOne(w, r, t, startFirst, image);
            && (one.result == Completed <==> Works(t))
            && (one.result == Completed ==> one.world == Swapped(w, r, t.placement, image))
            && one.result != Cancelled
  {
  }

  lemma {:induction false} SizeAfterSchedule(w: World, image: string, p: Placement)
    requires NewContainer(p).Some? ==> NewContainer(p).value !in w.live
    ensures |Schedule(w, image, p).live| == |w.live| + (if NewContainer(p).Some? then 1 else 0)
    ensures forall c <- w.live.Keys :: c in Schedule(w, image, p).live
  {
  }

  lemma {:induction false} SizeAfterRemoval(w: World, c: string, o: Removal)
    requires c in w.live
    ensures |RemoveContainer(w, c, o).live| == |w.live| - (if o.Removed? || o.killed then 1 else 0)
    ensures RemoveContainer(w, c, o).live.Keys <= w.live.Keys
  {
    assert (w.live - {c}).Keys == w.live.Keys - {c};
  }

  /** The sizes of the live set within one turn. */
  lemma {:induction false} OneInBounds(w: World, r: Replica, t: Turn, startFirst: bool, image: string)
    requires r.record.containerId in w.live
    requires NewContainer(t.placement).Some? ==> NewContainer(t.placement).value !in w.live
    ensures AllInBounds(ReplaceOne(w, r, t, startFirst, image).history, |w.live|, startFirst)
  {
    var c := r.record.containerId;
    if startFirst {
      var w1 := Schedule(w, image, t.placement);
      SizeAfterSchedule(w, image, t.placement);
      SizeAfterRemoval(w1, c, t.removal);
    } else {
      var w1 := RemoveContainer(w, c, t.removal);
      SizeAfterRemoval(w, c, t.removal);
      SizeAfterSchedule(w1, image, t.placement);
    }
  }

  /** A failed turn touches only its own replica. */
  lemma {:induction false} FailedOne(w: World, rs: seq<Replica>, t: Turn, i: nat, startFirst: bool, image: string)
    requires i < |rs| && Serving(w, rs, i)
    requires NewContainer(t.placement).Some? ==> NewContainer(t.placement).value !in w.live
    requires t.placement.Placed? ==> t.placement.id !in w.records
    ensures Serving(ReplaceOne(w, rs[i], t, startFirst, image).world, rs, i + 1)
  {
  }

  lemma {:induction false} SwapKeepsServing(w: World, rs: seq<Replica>, ts: seq<Turn>, i: nat, image: string)
    requires i < |rs| <= |ts| && Serving(w, rs, i) && Fresh(w, ts, i) && ts[i].placement.Placed?
    ensures var w' := Swapped(w, rs[i], ts[i].placement, image);
            && Serving(w', rs, i + 1) && Fresh(w', ts, i + 1)
            && |w'.live| == |w.live| && |w'.records| == |w.records|
  {
    var p, r := ts[i].placement, rs[i];
    var w' := Swapped(w, r, p, image);
    assert w'.live.Keys == w.live.Keys + {p.containerId} - {r.record.containerId};
    assert w'.records.Keys == w.records.Keys + {p.id} - {r.id};
    assert |w'.live| == |w'.live.Keys| && |w'.records| == |w'.records.Keys|;
  }

  // ---------------------------------------------------------------- whole updates

  /** An update that stops has completed exactly the replicas before the one it stopped at. */
  lemma {:induction false} UpdateReplaces(w: World, rs: seq<Replica>, ts: seq<Turn>, i: nat, startFirst: bool, image: string)
    requires i <= |rs| <= |ts|
    ensures var u := Update(w, rs, ts, i, startFirst, image);
            && i <= u.replaced <= |rs| && (u.result == Completed <==> u.replaced == |rs|)
            && forall k :: i <= k < u.replaced ==> Works(ts[k]) && !ts[k].cancelled
    decreases |rs| - i
  {
    if i < |rs| && !ts[i].cancelled {
      OneWorks(w, rs[i], ts[i], startFirst, image);
      UpdateReplaces(ReplaceOne(w, rs[i], ts[i], startFirst, image).world, rs, ts, i + 1, startFirst, image);
    }
  }

  /** One turn of the update, with everything the next one needs. */
  lemma {:induction false} OneTurn(w: World, rs: seq<Replica>, ts: seq<Turn>, i: nat, startFirst: bool, image: string, one: Rollout)
    requires i < |rs| <= |ts| && Serving(w, rs, i) && Fresh(w, ts, i)
    requires one == ReplaceOne(w, rs[i], ts[i], startFirst, image)
    ensures AllInBounds(one.history, |w.live|, startFirst) && Serving(one.world, rs, i + 1)
    ensures one.result == Completed ==> Fresh(one.world, ts, i + 1) && |one.world.live| == |w.live|
  {
    OneInBounds(w, rs[i], ts[i], startFirst, image);
    OneCompletes(w, rs[i], ts[i], startFirst, image);
    FailedOne(w, rs, ts[i], i, startFirst, image);
    if Works(ts[i]) {
      SwapKeepsServing(w, rs, ts, i, image);
    }
  }

  lemma {:induction false} BoundsJoin(a: seq<World>, b: seq<World>, n: int, startFirst: bool)
    requires AllInBounds(a, n, startFirst) && AllInBounds(b, n, startFirst)
    ensures AllInBounds(a + b, n, startFirst)
  {
  }

  lemma {:induction false} UpdateServes(w: World, rs: seq<Replica>, ts: seq<Turn>, i: nat, startFirst: bool,
      image: string, u: Rollout)
    requires i <= |rs| <= |ts| && Serving(w, rs, i) && Fresh(w, ts, i)
    requires u == Update(w, rs, ts, i, startFirst, image)
    ensures AllInBounds(u.history, |w.live|, startFirst) && (u.replaced < |rs| ==> Serving(u.world, rs, u.replaced + 1))
    decreases |rs| - i
  {
    if i < |rs| && !ts[i].cancelled {
      var one := ReplaceOne(w, rs[i], ts[i], startFirst, image);
      OneTurn(w, rs, ts, i, startFirst, image, one);
      if one.result == Completed {
        var rest := Update(one.world, rs, ts, i + 1, startFirst, image);
        UpdateServes(one.world, rs, ts, i + 1, startFirst, image, rest);
        BoundsJoin(one.history, rest.history, |w.live|, startFirst);
      }
    }
  }

  /** At every step of every update, whatever fails and whenever it is cancelled, the number of live
      containers stays in [N, N+1] for start-first and in [N-1, N] otherwise; and an update that
      stops has replaced exactly the replicas before the one it stopped at. */
  lemma {:induction false} UpdateKeepsServing(w: World, rs: seq<Replica>, ts: seq<Turn>, i: nat, startFirst: bool, image: string, u: Rollout)
    requires i <= |rs| <= |ts| && Serving(w, rs, i) && Fresh(w, ts, i)
    requires u == Update(w, rs, ts, i, startFirst, image)
    ensures AllInBounds(u.history, |w.live|, startFirst)
    ensures i <= u.replaced <= |rs| && (u.result == Completed <==> u.replaced == |rs|)
    ensures u.replaced < |rs| ==> Serving(u.world, rs, u.replaced + 1)
    ensures forall k :: i <= k < u.replaced ==> Works(ts[k]) && !ts[k].cancelled
  {
    UpdateReplaces(w, rs, ts, i, startFirst, image);
    UpdateServes(w, rs, ts, i, startFirst, image, u);
  }

  /** The replacements from `i` on, one after the other: what both orders amount to. */
  function Swaps(w: World, rs: seq<Replica>, ts: seq<Turn>, i: nat, image: string): World
    requires i <= |rs| <= |ts| && forall k :: i <= k < |rs| ==> ts[k].placement.Placed?
    decreases |rs| - i
  {
    if i == |rs| then w else Swaps(Swapped(w, rs[i], ts[i].placement, image), rs, ts, i + 1, image)
  }

  /** A completed update is a series of swaps. */
  lemma {:induction false} CompletedIsSwaps(w: World, rs: seq<Replica>, ts: seq<Turn>, i: nat, startFirst: bool, image: string)
    requires i <= |rs| <= |ts| && (forall k :: 0 <= k < |rs| ==> Separate(rs[k], ts[k].placement))
    requires Update(w, rs, ts, i, startFirst, image).result == Completed
    requires forall k :: i <= k < |rs| ==> ts[k].placement.Placed?
    ensures Update(w, rs, ts, i, startFirst, image).world == Swaps(w, rs, ts, i, image)
    decreases |rs| - i
  {
    if i < |rs| {
      OneCompletes(w, rs[i], ts[i], startFirst, image);
      CompletedIsSwaps(ReplaceOne(w, rs[i], ts[i], startFirst, image).world, rs, ts, i + 1, startFirst, image);
    }
  }

  /** Swaps keep the number of containers and of records. */
  lemma {:induction false} SwapsKeepCounts(w: World, rs: seq<Replica>, ts: seq<Turn>, i: nat, image: string, w': World)
    requires i <= |rs| <= |ts| && Serving(w, rs, i) && Fresh(w, ts, i)
    requires (forall k :: i <= k < |rs| ==> ts[k].placement.Placed?) && w' == Swaps(w, rs, ts, i, image)
    ensures |w'.live| == |w.live| && |w'.records| == |w.records|
    decreases |rs| - i
  {
    if i < |rs| {
      SwapKeepsServing(w, rs, ts, i, image);
      SwapsKeepCounts(Swapped(w, rs[i], ts[i].placement, image), rs, ts, i + 1, image, w');
    }
  }

  lemma {:induction false} SwapsLeave(w: World, rs: seq<Replica>, ts: seq<Turn>, i: nat, image: string, c: string, id: string)
    requires i <= |rs| <= |ts| && forall k :: i <= k < |rs| ==> ts[k].placement.Placed?
    requires forall k :: i <= k < |rs| ==> ts[k].placement.containerId != c && rs[k].record.containerId != c
    requires forall k :: i <= k < |rs| ==> ts[k].placement.id != id && rs[k].id != id
    ensures var w' := Swaps(w, rs, ts, i, image);
            && (c in w'.live <==> c in w.live) && (c in w.live ==> w'.live[c] == w.live[c])
            && (id in w'.records <==> id in w.records) && (id in w.records ==> w'.records[id] == w.records[id])
    decreases |rs| - i
  {
    if i < |rs| {
      SwapsLeave(Swapped(w, rs[i], ts[i].placement, image), rs, ts, i + 1, image, c, id);
    }
  }

  /** New names differ from each other and from those of the originals. */
  ghost predicate Apart(rs: seq<Replica>, ts: seq<Turn>) {
    && |rs| <= |ts|
    && (forall k, l :: 0 <= k < |rs| && 0 <= l < |rs| && ts[k].placement.Placed? ==>
          ts[k].placement.id != rs[l].id && ts[k].placement.containerId != rs[l].record.containerId)
    && (forall k, l :: 0 <= k < l < |rs| ==> rs[k].id != rs[l].id && rs[k].record.containerId != rs[l].record.containerId)
    && (forall k, l :: 0 <= k < l < |rs| && ts[k].placement.Placed? && ts[l].placement.Placed? ==>
          ts[k].placement.id != ts[l].placement.id && ts[k].placement.containerId != ts[l].placement.containerId)
  }

  /** Replica `k` is gone, and its replacement is there. */
  lemma {:induction false} SwapsReplace(w: World, rs: seq<Replica>, ts: seq<Turn>, i: nat, image: string, k: nat)
    requires i <= k < |rs| && Apart(rs, ts) && forall k :: i <= k < |rs| ==> ts[k].placement.Placed?
    ensures var w', p, r := Swaps(w, rs, ts, i, image), ts[k].placement, rs[k];
            && r.record.containerId !in w'.live && r.id !in w'.records
            && p.containerId in w'.live && w'.live[p.containerId] == image
            && p.id in w'.records && w'.records[p.id] == Record(p.containerId, p.node, "running", p.at)
    decreases |rs| - i
  {
    var w1 := Swapped(w, rs[i], ts[i].placement, image);
    if k == i {
      SwapsLeave(w1, rs, ts, i + 1, image, ts[i].placement.containerId, ts[i].placement.id);
      SwapsLeave(w1, rs, ts, i + 1, image, rs[i].record.containerId, rs[i].id);
    } else {
      SwapsReplace(w1, rs, ts, i + 1, image, k);
    }
  }

  /** A completed update replaced every original exactly once: its container is gone, a container of
      its own runs the new image instead, and the number of containers and of records is the same. */
  lemma {:induction false} CompletedUpdate(w: World, rs: seq<Replica>, ts: seq<Turn>, startFirst: bool, image: string, k: nat)
    requires k < |rs| <= |ts| && Serving(w, rs, 0) && Fresh(w, ts, 0)
    requires Update(w, rs, ts, 0, startFirst, image).result == Completed
    ensures var w', p, r := Update(w, rs, ts, 0, startFirst, image).world, ts[k].placement, rs[k];
            && |w'.live| == |w.live| && |w'.records| == |w.records| && p.Placed?
            && r.record.containerId !in w'.live && r.id !in w'.records
            && p.containerId in w'.live && w'.live[p.containerId] == image
            && p.id in w'.records && w'.records[p.id] == Record(p.containerId, p.node, "running", p.at)
    ensures forall l :: 0 <= l < |rs| && l != k ==>
              ts[l].placement.Placed? && ts[l].placement.containerId != ts[k].placement.containerId
  {
    NamesApart(w, rs, ts);
    UpdateReplaces(w, rs, ts, 0, startFirst, image);
    CompletedIsSwaps(w, rs, ts, 0, startFirst, image);
    SwapsKeepCounts(w, rs, ts, 0, image, Swaps(w, rs, ts, 0, image));
    SwapsReplace(w, rs, ts, 0, image, k);
  }

  lemma {:induction false} NamesApart(w: World, rs: seq<Replica>, ts: seq<Turn>)
    requires |rs| <= |ts| && Serving(w, rs, 0) && Fresh(w, ts, 0)
    ensures Apart(rs, ts) && forall k :: 0 <= k < |rs| ==> Separate(rs[k], ts[k].placement)
  {
    forall k, l | 0 <= k < l < |ts| && ts[k].placement.Placed? && ts[l].placement.Placed?
      ensures ts[k].placement.containerId != ts[l].placement.containerId
    {
      assert NewContainer(ts[k].placement) != NewContainer(ts[l].placement);
    }
    forall k | 0 <= k < |ts| && ts[k].placement.Placed?
      ensures ts[k].placement.containerId !in w.live
    {
      assert NewContainer(ts[k].placement).value !in w.live;
    }
  }
}
