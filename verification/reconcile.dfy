/** Reconciliation of one service's replicas with the desired count (internal/orchestrator/service.go). */
module Reconcile {
  import opened RollingUpdate

  const RUNNING := "running"

  function CountRunning(rs: seq<Replica>, i: nat): nat
    requires i <= |rs|
    decreases |rs| - i
  {
    if i == |rs| then 0 else (if rs[i].record.status == RUNNING then 1 else 0) + CountRunning(rs, i + 1)
  }

  /** `rs` lists the records on disk, in any order. */
  ghost predicate Lists(rs: seq<Replica>, records: map<string, Record>) {
    && |rs| == |records|
    && (forall k :: 0 <= k < |rs| ==> rs[k].id in records && records[rs[k].id] == rs[k].record)
    && (forall k, l :: 0 <= k < l < |rs| ==> rs[k].id != rs[l].id)
  }

  /** One of the orders sort.Slice may produce: newest first. */
  ghost predicate NewestFirst(rs: seq<Replica>) {
    forall k, l :: 0 <= k < l < |rs| ==> rs[k].record.createdAt >= rs[l].record.createdAt
  }

  ghost predicate AllRunning(records: map<string, Record>) {
    forall id <- records.Keys :: records[id].status == RUNNING
  }

  // ---------------------------------------------------------------- scaling up

  function Size(count: int): nat { if count > 0 then count else 0 }

  datatype Attempt = Attempt(cancelled: bool, placement: Placement)

  /** `count` placements from attempt `i` on; a failed one is logged and skipped. */
  function ScaleUp(w: World, image: string, count: int, ts: seq<Attempt>, i: nat): World
    requires i + Size(count) <= |ts|
    decreases Size(count)
  {
    if count <= 0 || ts[i].cancelled then w
    else ScaleUp(Schedule(w, image, ts[i].placement), image, count - 1, ts, i + 1)
  }

  /** Generated replica ids are new and no two are the same. */
  ghost predicate FreshIds(w: World, ts: seq<Attempt>, i: nat) {
    && (forall k :: i <= k < |ts| && ts[k].placement.Placed? ==> ts[k].placement.id !in w.records)
    && (forall k, l :: i <= k < l < |ts| && ts[k].placement.Placed? && ts[l].placement.Placed? ==>
          ts[k].placement.id != ts[l].placement.id)
  }

  lemma {:induction false} ScheduleAddsOne(w: World, image: string, p: Placement)
    requires p.Placed? ==> p.id !in w.records
    ensures |Schedule(w, image, p).records| == |w.records| + (if p.Placed? then 1 else 0)
    ensures forall id <- w.records.Keys ::
              id in Schedule(w, image, p).records && Schedule(w, image, p).records[id] == w.records[id]
    ensures AllRunning(w.records) ==> AllRunning(Schedule(w, image, p).records)
  {
  }

  lemma {:induction false} FreshIdsAfter(w: World, image: string, ts: seq<Attempt>, i: nat)
    requires i < |ts| && FreshIds(w, ts, i)
    ensures FreshIds(Schedule(w, image, ts[i].placement), ts, i + 1)
  {
  }

  /** Scaling up adds a record for every placement that succeeds before a cancellation: never more
      than `count`, and exactly `count` when nothing fails. */
  lemma {:induction false} ScaleUpCounts(w: World, image: string, count: int, ts: seq<Attempt>, i: nat, w': World)
    requires i + Size(count) <= |ts| && FreshIds(w, ts, i) && w' == ScaleUp(w, image, count, ts, i)
    ensures |w.records| <= |w'.records| <= |w.records| + Size(count)
    ensures (forall k :: i <= k < i + count ==> !ts[k].cancelled && ts[k].placement.Placed?) ==>
              |w'.records| == |w.records| + Size(count)
    decreases Size(count)
  {
    if count > 0 && !ts[i].cancelled {
      ScheduleAddsOne(w, image, ts[i].placement);
      FreshIdsAfter(w, image, ts, i);
      ScaleUpCounts(Schedule(w, image, ts[i].placement), image, count - 1, ts, i + 1, w');
    }
  }

  /** No record is lost or changed. */
  lemma {:induction false} ScaleUpKeeps(w: World, image: string, count: int, ts: seq<Attempt>, i: nat, w': World, id: string)
    requires i + Size(count) <= |ts| && FreshIds(w, ts, i) && w' == ScaleUp(w, image, count, ts, i)
    requires id in w.records
    ensures id in w'.records && w'.records[id] == w.records[id]
    decreases Size(count)
  {
    if count > 0 && !ts[i].cancelled {
      ScheduleAddsOne(w, image, ts[i].placement);
      FreshIdsAfter(w, image, ts, i);
      ScaleUpKeeps(Schedule(w, image, ts[i].placement), image, count - 1, ts, i + 1, w', id);
    }
  }

  /** And the new ones are "running". */
  lemma {:induction false} ScaleUpRuns(w: World, image: string, count: int, ts: seq<Attempt>, i: nat, w': World)
    requires i + Size(count) <= |ts| && w' == ScaleUp(w, image, count, ts, i) && AllRunning(w.records)
    ensures AllRunning(w'.records)
    decreases Size(count)
  {
    if count > 0 && !ts[i].cancelled {
      ScaleUpRuns(Schedule(w, image, ts[i].placement), image, count - 1, ts, i + 1, w');
    }
  }

  // ---------------------------------------------------------------- scaling down

  datatype Drop = Drop(cancelled: bool, removal: Removal)

  /** A failed removal keeps the record. */
  function DropOne(w: World, r: Replica, o: Removal): World {
    var w1 := RemoveContainer(w, r.record.containerId, o);
    if o.Removed? then Forget(w1, r.id) else w1
  }

  /** Removal of the replicas from `i` on up to `count`. */
  function ScaleDown(w: World, rs: seq<Replica>, count: int, ts: seq<Drop>, i: nat): World
    requires i <= |rs| <= |ts|
    decreases |rs| - i
  {
    if i >= count || i == |rs| || ts[i].cancelled then w
    else ScaleDown(DropOne(w, rs[i], ts[i].removal), rs, count, ts, i + 1)
  }

  /** The replicas from `i` on still have their records. */
  ghost predicate Recorded(w: World, rs: seq<Replica>, i: nat) {
    && (forall k :: i <= k < |rs| ==> rs[k].id in w.records)
    && (forall k, l :: i <= k < l < |rs| ==> rs[k].id != rs[l].id)
  }

  lemma {:induction false} DropsOne(w: World, rs: seq<Replica>, i: nat, o: Removal)
    requires i < |rs| && Recorded(w, rs, i)
    ensures var next := DropOne(w, rs[i], o);
            && Recorded(next, rs, i + 1)
            && |next.records| == |w.records| - (if o.Removed? then 1 else 0)
            && (forall id :: id in next.records <==> id in w.records && !(o.Removed? && id == rs[i].id))
            && (forall id <- next.records.Keys :: next.records[id] == w.records[id])
  {
    var next := DropOne(w, rs[i], o);
    assert next.records.Keys == w.records.Keys - (if o.Removed? then {rs[i].id} else {});
    assert |next.records| == |next.records.Keys| && |w.records| == |w.records.Keys|;
  }

  /** How many of the replicas from `i` on are to go. */
  function Surplus(n: nat, i: nat, count: int): nat
    requires i <= n
  {
    if count <= i then 0 else if count < n then count - i else n - i
  }

  /** Scaling down removes at most the surplus, and exactly it when nothing fails. */
  lemma {:induction false} ScaleDownCounts(w: World, rs: seq<Replica>, count: int, ts: seq<Drop>, i: nat, w': World)
    requires i <= |rs| <= |ts| && Recorded(w, rs, i) && w' == ScaleDown(w, rs, count, ts, i)
    ensures |w.records| - Surplus(|rs|, i, count) <= |w'.records| <= |w.records|
    ensures (forall k :: i <= k < |rs| && k < count ==> !ts[k].cancelled && ts[k].removal.Removed?) ==>
              |w'.records| == |w.records| - Surplus(|rs|, i, count)
    decreases |rs| - i
  {
    if i < count && i < |rs| && !ts[i].cancelled {
      DropsOne(w, rs, i, ts[i].removal);
      ScaleDownCounts(DropOne(w, rs[i], ts[i].removal), rs, count, ts, i + 1, w');
    }
  }

  /** It only removes records of the first `count` replicas, and changes none. */
  lemma {:induction false} ScaleDownKeeps(w: World, rs: seq<Replica>, count: int, ts: seq<Drop>, i: nat, w': World, id: string)
    requires i <= |rs| <= |ts| && Recorded(w, rs, i) && w' == ScaleDown(w, rs, count, ts, i)
    ensures id in w'.records ==> id in w.records && w'.records[id] == w.records[id]
    ensures id in w.records && (forall k :: i <= k < |rs| && k < count ==> rs[k].id != id) ==> id in w'.records
    decreases |rs| - i
  {
    if i < count && i < |rs| && !ts[i].cancelled {
      DropsOne(w, rs, i, ts[i].removal);
      ScaleDownKeeps(DropOne(w, rs[i], ts[i].removal), rs, count, ts, i + 1, w', id);
    }
  }

  /** The turn of replica `k` comes: it is within the count and nothing was cancelled up to it. */
  ghost predicate Reached(count: int, ts: seq<Drop>, i: nat, k: nat)
    requires k < |ts|
  {
    k < count && forall j :: i <= j <= k ==> !ts[j].cancelled
  }

  /** It forgets exactly the replicas whose turn comes and whose removal works. */
  lemma {:induction false} ScaleDownDrops(w: World, rs: seq<Replica>, count: int, ts: seq<Drop>, i: nat, w': World, k: nat)
    requires i <= k < |rs| <= |ts| && Recorded(w, rs, i) && w' == ScaleDown(w, rs, count, ts, i)
    ensures rs[k].id !in w'.records <==> Reached(count, ts, i, k) && ts[k].removal.Removed?
    decreases |rs| - i
  {
    if i < count && !ts[i].cancelled {
      var next := DropOne(w, rs[i], ts[i].removal);
      DropsOne(w, rs, i, ts[i].removal);
      if k == i {
        ScaleDownKeeps(next, rs, count, ts, i + 1, w', rs[k].id);
      } else {
        ScaleDownDrops(next, rs, count, ts, i + 1, w', k);
      }
    }
  }

  /** No removed replica is older than one that stays, unless the removal of the latter failed:
      also when the scaling down is cancelled half way. */
  lemma {:induction false} NewestGoFirst(w: World, rs: seq<Replica>, count: int, ts: seq<Drop>, gone: nat, kept: nat, w': World)
    requires |rs| <= |ts| && Lists(rs, w.records) && NewestFirst(rs) && gone < |rs| && kept < |rs|
    requires w' == ScaleDown(w, rs, count, ts, 0) && rs[gone].id !in w'.records && rs[kept].id in w'.records
    requires Reached(count, ts, 0, kept) ==> ts[kept].removal.Removed?
    ensures rs[gone].record.createdAt >= rs[kept].record.createdAt
  {
    ScaleDownDrops(w, rs, count, ts, 0, w', gone);
    ScaleDownDrops(w, rs, count, ts, 0, w', kept);
  }

  // ---------------------------------------------------------------- one pass

  /** One pass over a service: `listing` as read from disk, `sorted` the same newest first. */
  function Pass(w: World, desired: int, image: string, listing: seq<Replica>, sorted: seq<Replica>,
      ups: seq<Attempt>, downs: seq<Drop>): World
    requires |sorted| <= |downs| && Size(desired) <= |ups|
  {
    var running := CountRunning(listing, 0);
    if running < desired then ScaleUp(w, image, desired - running, ups, 0)
    else if running > desired then ScaleDown(w, sorted, running - desired, downs, 0)
    else w
  }

  ghost predicate PassInput(w: World, desired: int, listing: seq<Replica>, sorted: seq<Replica>,
      ups: seq<Attempt>, downs: seq<Drop>)
  {
    && AllRunning(w.records) && Lists(listing, w.records) && Lists(sorted, w.records) && NewestFirst(sorted)
    && |sorted| <= |downs| && Size(desired) <= |ups| && FreshIds(w, ups, 0)
  }

  lemma {:induction false} AllCounted(rs: seq<Replica>, i: nat)
    requires i <= |rs| && forall k :: i <= k < |rs| ==> rs[k].record.status == RUNNING
    ensures CountRunning(rs, i) == |rs| - i
    decreases |rs| - i
  {
    if i < |rs| {
      AllCounted(rs, i + 1);
    }
  }

  lemma {:induction false} ListingCounts(rs: seq<Replica>, records: map<string, Record>)
    requires Lists(rs, records) && AllRunning(records)
    ensures CountRunning(rs, 0) == |records|
  {
    AllCounted(rs, 0);
  }

  ghost predicate NoErrors(ups: seq<Attempt>, downs: seq<Drop>) {
    && (forall k :: 0 <= k < |ups| ==> !ups[k].cancelled && ups[k].placement.Placed?)
    && (forall k :: 0 <= k < |downs| ==> !downs[k].cancelled && downs[k].removal.Removed?)
  }

  /** Never beyond the desired count, from either side, a negative one meaning none; and exactly
      there when nothing went wrong. */
  predicate Converges(before: nat, after: nat, desired: int, clean: bool) {
    && (before <= Size(desired) ==> before <= after <= Size(desired))
    && (before >= Size(desired) ==> Size(desired) <= after <= before)
    && (clean ==> after == Size(desired))
  }

  lemma {:induction false} PassUp(w: World, desired: int, image: string, ups: seq<Attempt>, downs: seq<Drop>, w': World)
    requires |w.records| < desired <= |ups| && FreshIds(w, ups, 0)
    requires w' == ScaleUp(w, image, desired - |w.records|, ups, 0)
    ensures Converges(|w.records|, |w'.records|, desired, NoErrors(ups, downs))
  {
    ScaleUpCounts(w, image, desired - |w.records|, ups, 0, w');
  }

  lemma {:induction false} ListedAreRecorded(w: World, rs: seq<Replica>)
    requires Lists(rs, w.records)
    ensures Recorded(w, rs, 0) && |rs| == |w.records|
  {
  }

  lemma {:induction false} PassDown(w: World, desired: int, sorted: seq<Replica>, ups: seq<Attempt>, downs: seq<Drop>, w': World)
    requires |w.records| > desired && Recorded(w, sorted, 0) && |sorted| == |w.records| && |sorted| <= |downs|
    requires w' == ScaleDown(w, sorted, |w.records| - desired, downs, 0)
    ensures Converges(|w.records|, |w'.records|, desired, NoErrors(ups, downs))
  {
    ScaleDownCounts(w, sorted, |w.records| - desired, downs, 0, w');
    assert Surplus(|sorted|, 0, |w.records| - desired) == |w.records| - Size(desired);
  }

  /** A pass never overshoots in either direction, whatever fails; without errors it ends with
      exactly the desired count. */
  lemma {:induction false} PassConverges(w: World, desired: int, image: string, listing: seq<Replica>, sorted: seq<Replica>,
      ups: seq<Attempt>, downs: seq<Drop>, w': World)
    requires PassInput(w, desired, listing, sorted, ups, downs)
    requires w' == Pass(w, desired, image, listing, sorted, ups, downs)
    ensures Converges(|w.records|, |w'.records|, desired, NoErrors(ups, downs))
  {
    ListingCounts(listing, w.records);
    if |w.records| < desired {
      PassUp(w, desired, image, ups, downs, w');
    } else if |w.records| > desired {
      ListedAreRecorded(w, sorted);
      PassDown(w, desired, sorted, ups, downs, w');
    }
  }

  lemma {:induction false} ScaleDownRuns(w: World, rs: seq<Replica>, count: int, ts: seq<Drop>, i: nat, w': World)
    requires i <= |rs| <= |ts| && w' == ScaleDown(w, rs, count, ts, i) && AllRunning(w.records)
    ensures AllRunning(w'.records)
    decreases |rs| - i
  {
    if i < count && i < |rs| && !ts[i].cancelled {
      ScaleDownRuns(DropOne(w, rs[i], ts[i].removal), rs, count, ts, i + 1, w');
    }
  }

  /** And all records stay "running", whatever was listed. */
  lemma {:induction false} PassKeepsRunning(w: World, desired: int, image: string, listing: seq<Replica>, sorted: seq<Replica>,
      ups: seq<Attempt>, downs: seq<Drop>, w': World)
    requires |sorted| <= |downs| && Size(desired) <= |ups| && AllRunning(w.records)
    requires w' == Pass(w, desired, image, listing, sorted, ups, downs)
    ensures AllRunning(w'.records)
  {
    var running := CountRunning(listing, 0);
    if running < desired {
      ScaleUpRuns(w, image, desired - running, ups, 0, w');
    } else if running > desired {
      ScaleDownRuns(w, sorted, running - desired, downs, 0, w');
    }
  }

  /** So after a pass without errors a second pass has nothing to do, whatever it might meet. */
  lemma {:induction false} SecondPassDoesNothing(w: World, desired: int, image: string,
      l1: seq<Replica>, s1: seq<Replica>, u1: seq<Attempt>, d1: seq<Drop>, w': World,
      l2: seq<Replica>, s2: seq<Replica>, u2: seq<Attempt>, d2: seq<Drop>)
    requires PassInput(w, desired, l1, s1, u1, d1) && NoErrors(u1, d1)
    requires w' == Pass(w, desired, image, l1, s1, u1, d1)
    requires Lists(l2, w'.records) && Lists(s2, w'.records) && |s2| <= |d2| && Size(desired) <= |u2|
    ensures Pass(w', desired, image, l2, s2, u2, d2) == w'
  {
    PassConverges(w, desired, image, l1, s1, u1, d1, w');
    PassKeepsRunning(w, desired, image, l1, s1, u1, d1, w');
    ListingCounts(l2, w'.records);
    assert |s2| == |w'.records| == Size(desired);
  }

  // ---------------------------------------------------------------- runs

  /** What the orchestrator does with the records of one service. */
  datatype Operation =
    | Deploy(placed: string, placement: Placement)
    | Roll(rs: seq<Replica>, turns: seq<RollingUpdate.Turn>, startFirst: bool, image: string)
    | Converge(desired: int, current: string, listing: seq<Replica>, sorted: seq<Replica>,
               ups: seq<Attempt>, downs: seq<Drop>)
    | Undeploy(replica: Replica, removal: Removal)
  {
    /** Outcomes are given for all the effects the operation may have. */
    ghost predicate Given() {
      match this
      case Roll(_, _, _, _) => |rs| <= |turns|
      case Converge(_, _, _, _, _, _) => |sorted| <= |downs| && Size(desired) <= |ups|
      case _ => true
    }

    ghost function Effect(w: World): World
      requires Given()
    {
      match this
      case Deploy(_, _) => Schedule(w, placed, placement)
      case Roll(_, _, _, _) => Update(w, rs, turns, 0, startFirst, image).world
      case Converge(_, _, _, _, _, _) => Pass(w, desired, current, listing, sorted, ups, downs)
      case Undeploy(_, _) => DropOne(w, replica, removal)
    }
  }

  ghost function After(w: World, run: seq<Operation>): World
    requires forall o <- run :: o.Given()
    decreases |run|
  {
    if run == [] then w else (assert run[0] in run; After(run[0].Effect(w), run[1..]))
  }

  lemma {:induction false} ReplaceKeepsRunning(w: World, r: Replica, t: RollingUpdate.Turn, startFirst: bool, image: string)
    requires AllRunning(w.records)
    ensures AllRunning(ReplaceOne(w, r, t, startFirst, image).world.records)
  {
  }

  /** An update writes "running" records only, wherever it fails or is cancelled. */
  lemma {:induction false} UpdateKeepsRunning(w: World, rs: seq<Replica>, ts: seq<RollingUpdate.Turn>, i: nat,
      startFirst: bool, image: string)
    requires i <= |rs| <= |ts| && AllRunning(w.records)
    ensures AllRunning(Update(w, rs, ts, i, startFirst, image).world.records)
    decreases |rs| - i
  {
    if i < |rs| && !ts[i].cancelled {
      ReplaceKeepsRunning(w, rs[i], ts[i], startFirst, image);
      UpdateKeepsRunning(ReplaceOne(w, rs[i], ts[i], startFirst, image).world, rs, ts, i + 1, startFirst, image);
    }
  }

  lemma {:induction false} OperationKeepsRunning(w: World, o: Operation)
    requires o.Given() && AllRunning(w.records)
    ensures AllRunning(o.Effect(w).records)
  {
    match o
    case Roll(rs, ts, startFirst, image) =>
      UpdateKeepsRunning(w, rs, ts, 0, startFirst, image);
    case Converge(desired, current, listing, sorted, ups, downs) =>
      PassKeepsRunning(w, desired, current, listing, sorted, ups, downs, o.Effect(w));
    case _ =>
  }

  /** After every run of operations, with any listings, failures and cancellations, every record on
      disk has status "running": the count of a pass is that of all records. */
  lemma {:induction false} RecordsAreRunning(w: World, run: seq<Operation>)
    requires AllRunning(w.records) && forall o <- run :: o.Given()
    ensures AllRunning(After(w, run).records)
    decreases |run|
  {
    if run != [] {
      assert run[0] in run;
      OperationKeepsRunning(w, run[0]);
      RecordsAreRunning(run[0].Effect(w), run[1..]);
    }
  }
}
