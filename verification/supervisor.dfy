/** The supervisor process itself: container objects that mutate and save themselves, and the
    three loops of a poll, over reaped children and twice over all containers.  Every method is
    proved against the per-container functions of `Supervision`. */
module SupervisorProcess {
  import opened Supervision
  import opened Wrappers

  type Id = string

  /** Everything a tick reads and writes, as a value. */
  datatype World = World(files: map<Id, Record>, alive: set<Id>, managed: map<Id, Deadline>, finalized: set<Id>)

  function SlotIn(w: World, id: Id): Slot {
    Slot(if id in w.files then Some(w.files[id]) else None, id in w.alive,
         if id in w.managed then w.managed[id] else Unmanaged, id in w.finalized)
  }

  function Put(w: World, id: Id, s: Slot): World {
    World(if s.disk.Some? then w.files[id := s.disk.value] else w.files - {id},
          if s.alive then w.alive + {id} else w.alive - {id},
          if s.managed.Unmanaged? then w.managed - {id} else w.managed[id := s.managed],
          if s.finalized then w.finalized + {id} else w.finalized - {id})
  }

  ghost predicate Proper(w: World) { forall id :: id in w.managed ==> !w.managed[id].Unmanaged? }

  lemma {:induction false} SlotsDetermineWorld(a: World, b: World)
    requires Proper(a) && Proper(b) && forall id :: SlotIn(a, id) == SlotIn(b, id)
    ensures a == b
  {
    forall id: Id
      ensures (id in a.files <==> id in b.files) && (id in a.files ==> a.files[id] == b.files[id])
      ensures (id in a.managed <==> id in b.managed) && (id in a.managed ==> a.managed[id] == b.managed[id])
      ensures (id in a.alive <==> id in b.alive) && (id in a.finalized <==> id in b.finalized)
    {
      assert SlotIn(a, id) == SlotIn(b, id);
    }
    assert a.files == b.files && a.managed == b.managed && a.alive == b.alive && a.finalized == b.finalized;
  }

  lemma {:induction false} SameSlot(a: World, b: World, id: Id)
    requires SlotIn(a, id) == SlotIn(b, id) && id in b.files
    ensures id in a.files && a.files[id] == b.files[id] && (id in a.alive <==> id in b.alive)
  {
    assert SlotIn(a, id).disk == SlotIn(b, id).disk;
  }

  /** `step` applied to the slots of `ids`, one after the other. */
  ghost function ForEach(w: World, ids: seq<Id>, step: (Id, Slot) -> Slot): World {
    if ids == [] then w
    else
      var (before, id) := (ForEach(w, ids[..|ids| - 1], step), ids[|ids| - 1]);
      Put(before, id, step(id, SlotIn(before, id)))
  }

  lemma {:induction false} ForEachIsPointwise(w: World, ids: seq<Id>, step: (Id, Slot) -> Slot, id: Id)
    requires forall i, j :: 0 <= i < j < |ids| ==> ids[i] != ids[j]
    requires Proper(w)
    ensures SlotIn(ForEach(w, ids, step), id) == if id in ids then step(id, SlotIn(w, id)) else SlotIn(w, id)
    ensures Proper(ForEach(w, ids, step))
    decreases |ids|
  {
    if ids != [] {
      ForEachIsPointwise(w, ids[..|ids| - 1], step, id);
      ForEachIsPointwise(w, ids[..|ids| - 1], step, ids[|ids| - 1]);
    }
  }

  lemma {:induction false} Advance(w: World, before: World, after: World, ids: seq<Id>, i: nat, step: (Id, Slot) -> Slot)
    requires i < |ids| && Proper(before) && Proper(after) && before == ForEach(w, ids[..i], step)
    requires SlotIn(after, ids[i]) == step(ids[i], SlotIn(before, ids[i]))
    requires !SlotIn(after, ids[i]).managed.Unmanaged? || ids[i] !in after.managed
    requires forall id :: id != ids[i] ==> SlotIn(after, id) == SlotIn(before, id)
    ensures after == ForEach(w, ids[..i + 1], step)
  {
    assert ids[..i + 1][..i] == ids[..i];
    SlotsDetermineWorld(after, Put(before, ids[i], step(ids[i], SlotIn(before, ids[i]))));
  }

  lemma {:induction false} EntrySet(before: World, after: World, id: Id, d: Deadline)
    requires after == before.(managed := before.managed[id := d])
    ensures SlotIn(after, id) == SlotIn(before, id).(managed := d)
    ensures forall other :: other != id ==> SlotIn(after, other) == SlotIn(before, other)
  {
  }

  lemma {:induction false} EntryDropped(before: World, after: World, id: Id)
    requires after == before.(managed := before.managed - {id})
    ensures SlotIn(after, id) == SlotIn(before, id).(managed := Unmanaged)
    ensures forall other :: other != id ==> SlotIn(after, other) == SlotIn(before, other)
  {
  }

  /** `after` is `before` as `List` leaves it. */
  ghost predicate Listed(before: World, after: World) {
    after == before.(files := after.files) && AllNormalized(before.files, after.files, before.alive)
  }

  lemma {:induction false} ListedFinalize(before: World, after: World, id: Id, exitAt: int)
    requires Listed(before, after)
    ensures FinalizeOne(SlotIn(after, id), exitAt) == FinalizeOne(SlotIn(before, id), exitAt)
  {
  }

  lemma {:induction false} NormalizedOnce(s: Slot, e: Turn)
    ensures s.disk.Some? ==> AdoptOne(s.(disk := Some(Normalize(s.disk.value, s.alive))), e) == AdoptOne(s, e)
  {
    if s.disk.Some? {
      var r := Normalize(s.disk.value, s.alive);
      assert Normalize(r, s.alive) == r;
    }
  }

  lemma {:induction false} ListedAdopt(before: World, after: World, id: Id, e: Turn)
    requires Listed(before, after)
    ensures AdoptOne(SlotIn(after, id), e) == AdoptOne(SlotIn(before, id), e)
  {
    var s := SlotIn(before, id);
    NormalizedOnce(s, e);
    if s.disk.Some? {
      assert SlotIn(after, id) == s.(disk := Some(Normalize(s.disk.value, s.alive)));
    } else {
      assert SlotIn(after, id) == s;
    }
  }

  lemma {:induction false} AfterSnoc(s: Slot, run: seq<Event>, e: Event)
    ensures After(s, run + [e]) == Step(After(s, run), e)
    decreases |run|
  {
    var all := run + [e];
    if run == [] {
      assert all[0] == e && all[1..] == [];
    } else {
      assert all[0] == run[0] && all[1..] == run[1..] + [e];
      AfterSnoc(Step(s, run[0]), run[1..], e);
    }
  }

  /** A reaped child of the supervisor: the container whose file records it, if any, and when its
      exit is handled. */
  datatype Child = Child(owner: Option<Id>, at: int)

  ghost function Reaps(children: seq<Child>, id: Id): seq<Event> {
    if children == [] then []
    else
      var last := children[|children| - 1];
      Reaps(children[..|children| - 1], id) + [Reap(last.at, last.owner == Some(id))]
  }

  lemma {:induction false} ReapedOne(s: Slot, children: seq<Child>, i: nat, id: Id)
    requires i < |children|
    ensures After(s, Reaps(children[..i + 1], id)) ==
            ReapOne(After(s, Reaps(children[..i], id)), children[i].at, children[i].owner == Some(id))
  {
    assert children[..i + 1][..i] == children[..i];
    AfterSnoc(s, Reaps(children[..i], id), Reap(children[i].at, children[i].owner == Some(id)));
  }

  /** What one poll is to the container. */
  ghost function PollRun(children: seq<Child>, id: Id, exitAt: int, turn: Turn): seq<Event> {
    Reaps(children, id) + [Tick(exitAt, turn)]
  }

  /** The directory of state files, and which recorded process trees the kernel still runs. */
  class StateDir {
    var files: map<Id, Record>
    var alive: set<Id>

    constructor ()
      ensures files == map[] && alive == {}
    {
      files, alive := map[], {};
    }

    /** The state files in some order. */
    method ReadDir() returns (names: seq<Id>)
      ensures forall id :: id in names <==> id in files
      ensures forall i, j :: 0 <= i < j < |names| ==> names[i] != names[j]
    {
      names := [];
      var rest := files.Keys;
      while rest != {}
        invariant rest <= files.Keys
        invariant forall id :: id in names <==> id in files && id !in rest
        invariant forall i, j :: 0 <= i < j < |names| ==> names[i] != names[j]
        decreases rest
      {
        var id :| id in rest;
        names := names + [id];
        rest := rest - {id};
      }
    }
  }

  class Container {
    const id: Id
    const config: Config
    var status: Status
    var recorded: bool
    var stoppedByUser: bool
    var lastExitAt: Option<int>
    var lastStartedAt: Option<int>
    var restartAttempts: int
    var restartWindowStart: Option<int>
    var restartBlocked: bool

    ghost function Snapshot(): Record
      reads this
    {
      Record(config, status, recorded, stoppedByUser, lastExitAt, lastStartedAt,
             restartAttempts, restartWindowStart, restartBlocked)
    }

    constructor FromFile(id: Id, r: Record)
      ensures this.id == id && Snapshot() == r
    {
      this.id, config := id, r.config;
      status, recorded, stoppedByUser := r.status, r.recorded, r.stoppedByUser;
      lastExitAt, lastStartedAt := r.lastExitAt, r.lastStartedAt;
      restartAttempts, restartWindowStart, restartBlocked := r.attempts, r.windowStart, r.blocked;
    }

    method Save(dir: StateDir)
      modifies dir`files
      ensures dir.files == old(dir.files)[id := Snapshot()]
    {
      dir.files := dir.files[id := Record(config, status, recorded, stoppedByUser, lastExitAt, lastStartedAt,
                                          restartAttempts, restartWindowStart, restartBlocked)];
    }

    method IsProcessAlive(dir: StateDir) returns (b: bool)
      ensures b <==> ProcessAlive(Snapshot(), id in dir.alive)
    {
      b := recorded && id in dir.alive;
    }

    method NormalizeLoadedState(dir: StateDir)
      requires id in dir.files && dir.files[id] == Snapshot()
      modifies this, dir`files
      ensures Snapshot() == Normalize(old(Snapshot()), id in dir.alive)
      ensures dir.files == old(dir.files)[id := Snapshot()]
    {
      var live := IsProcessAlive(dir);
      if status == Running && !live {
        status, recorded := Stopped, false;
        Save(dir);
      }
    }

    method ResetRestartGuard(now: int)
      modifies this
      ensures Snapshot() == ResetGuard(old(Snapshot()), now)
    {
      restartAttempts := 0;
      restartWindowStart := Some(now);
      restartBlocked := false;
    }

    /** Granted or refused, the new counters are on file. */
    method AllowAutomaticRestart(dir: StateDir, now: int) returns (ok: bool)
      requires id in dir.files && dir.files[id] == Snapshot()
      modifies this, dir`files
      ensures (Snapshot(), ok) == Allow(old(Snapshot()), now)
      ensures dir.files == old(dir.files)[id := Snapshot()]
    {
      if restartBlocked {
        return false;
      }
      if restartWindowStart.None? || now - restartWindowStart.value >= Window(config) {
        restartWindowStart := Some(now);
        restartAttempts := 0;
      }
      if restartAttempts >= MaxAttempts(config) {
        restartBlocked := true;
        Save(dir);
        return false;
      }
      restartAttempts := restartAttempts + 1;
      Save(dir);
      ok := true;
    }

    method MarkStableIfNeeded(now: int)
      modifies this
      ensures Snapshot() == MarkStable(old(Snapshot()), now)
    {
      if lastStartedAt.Some? && now - lastStartedAt.value >= STABLE_RUNTIME {
        ResetRestartGuard(now);
      }
    }

    /** The file holds the stopped state without the stability reset, which comes after the save. */
    method DoFinalizeStopped(dir: StateDir, exitCode: int, now: int) returns (restart: bool)
      modifies this, dir`files
      ensures dir.files == old(dir.files)[id := FinalizeStopped(old(Snapshot()), now)]
      ensures Snapshot() == MarkStable(FinalizeStopped(old(Snapshot()), now), now)
      ensures restart <==> ShouldRestart(config.restart, exitCode, old(stoppedByUser))
    {
      var byUser := stoppedByUser;
      recorded := false;
      status := Stopped;
      lastExitAt := Some(now);
      Save(dir);
      MarkStableIfNeeded(now);
      restart := ShouldRestart(config.restart, exitCode, byUser);
    }

    /** `launched` is the combined outcome of everything between the checks and the commit. */
    method DoStart(dir: StateDir, now: int, launched: bool) returns (ok: bool)
      modifies this, dir
      ensures ok <==> old(status) != Running && launched
      ensures ok ==> dir.files == old(dir.files)[id := Started(old(Snapshot()), now)] && dir.alive == old(dir.alive) + {id}
      ensures !ok ==> dir.files == old(dir.files) && dir.alive == old(dir.alive)
    {
      if status == Running {
        return false;
      }
      status := Created;
      if !launched {
        return false;
      }
      recorded := true;
      dir.alive := dir.alive + {id};
      status := Running;
      stoppedByUser := false;
      lastStartedAt := Some(now);
      Save(dir);
      ok := true;
    }

    /** The `stop` command, from a process that did not start the container. */
    method DoStop(dir: StateDir) returns (stopped: bool)
      requires id in dir.files && dir.files[id] == Snapshot()
      requires Snapshot() == Normalize(Snapshot(), id in dir.alive)
      modifies this, dir
      ensures var (s, b) := UserStop(Slot(Some(old(Snapshot())), old(id in dir.alive), Unmanaged, false));
              && stopped == b && s.disk.Some? && dir.files == old(dir.files)[id := s.disk.value]
              && (id in dir.alive <==> s.alive)
      ensures dir.alive - {id} == old(dir.alive) - {id}
    {
      if status != Running {
        if recorded {
          dir.alive := dir.alive - {id};
        }
        if status == Stopped && config.restart != Never {
          stoppedByUser := true;
          Save(dir);
          return true;
        }
        return false;
      }
      stoppedByUser := true;
      Save(dir);
      dir.alive := dir.alive - {id};
      recorded := false;
      status := Stopped;
      Save(dir);
      stopped := true;
    }
  }

  method Load(dir: StateDir, id: Id) returns (c: Container?)
    modifies dir`files
    ensures c == null <==> id !in old(dir.files)
    ensures c == null ==> dir.files == old(dir.files)
    ensures c != null ==>
              fresh(c) && c.id == id && c.Snapshot() == Normalize(old(dir.files)[id], id in dir.alive)
              && dir.files == old(dir.files)[id := c.Snapshot()]
  {
    if id !in dir.files {
      return null;
    }
    c := new Container.FromFile(id, dir.files[id]);
    c.NormalizeLoadedState(dir);
  }

  ghost predicate AllNormalized(before: map<Id, Record>, after: map<Id, Record>, alive: set<Id>) {
    after.Keys == before.Keys && forall id :: id in before ==> after[id] == Normalize(before[id], id in alive)
  }

  /** The objects mirror the files, one each. */
  ghost predicate Mirrors(all: seq<Container>, files: map<Id, Record>)
    reads all
  {
    && (forall i, j :: 0 <= i < j < |all| ==> all[i].id != all[j].id)
    && (forall k :: 0 <= k < |all| ==> all[k].id in files && all[k].Snapshot() == files[all[k].id])
  }

  function Ids(all: seq<Container>): (ids: seq<Id>)
    ensures |ids| == |all| && forall k :: 0 <= k < |all| ==> ids[k] == all[k].id
  {
    seq(|all|, k requires 0 <= k < |all| => all[k].id)
  }

  /** The first `i` of the listed files are normalized, and the others as before. */
  ghost predicate LoadedUpTo(before: map<Id, Record>, after: map<Id, Record>, alive: set<Id>, names: seq<Id>, i: nat) {
    && after.Keys == before.Keys
    && (forall k :: 0 <= k < |names| ==>
          names[k] in before && after[names[k]] == if k < i then Normalize(before[names[k]], names[k] in alive) else before[names[k]])
  }

  lemma {:induction false} LoadedOneMore(before: map<Id, Record>, files: map<Id, Record>, after: map<Id, Record>,
      alive: set<Id>, names: seq<Id>, i: nat)
    requires LoadedUpTo(before, files, alive, names, i) && i < |names|
    requires forall k, l :: 0 <= k < l < |names| ==> names[k] != names[l]
    requires after == files[names[i] := Normalize(files[names[i]], names[i] in alive)]
    ensures LoadedUpTo(before, after, alive, names, i + 1)
  {
  }

  lemma {:induction false} AllLoaded(before: map<Id, Record>, after: map<Id, Record>, alive: set<Id>, names: seq<Id>)
    requires LoadedUpTo(before, after, alive, names, |names|) && forall id :: id in names <==> id in before
    ensures AllNormalized(before, after, alive)
  {
    forall id | id in before ensures after[id] == Normalize(before[id], id in alive) {
      assert id in names;
    }
  }

  method LoadListed(dir: StateDir, ghost before: map<Id, Record>, names: seq<Id>, i: nat) returns (c: Container)
    requires LoadedUpTo(before, dir.files, dir.alive, names, i) && i < |names|
    requires forall k, l :: 0 <= k < l < |names| ==> names[k] != names[l]
    modifies dir`files
    ensures fresh(c) && c.id == names[i] && c.Snapshot() == Normalize(before[names[i]], names[i] in dir.alive)
    ensures LoadedUpTo(before, dir.files, dir.alive, names, i + 1)
  {
    ghost var files := dir.files;
    var loaded := Load(dir, names[i]);
    assert loaded != null;
    c := loaded;
    LoadedOneMore(before, files, dir.files, dir.alive, names, i);
  }

  method List(dir: StateDir) returns (all: seq<Container>)
    modifies dir`files
    ensures forall k :: 0 <= k < |all| ==> fresh(all[k])
    ensures AllNormalized(old(dir.files), dir.files, dir.alive)
    ensures Mirrors(all, dir.files)
    ensures Lists(Ids(all), dir.files)
  {
    var names := dir.ReadDir();
    ghost var before := dir.files;
    all := [];
    for i := 0 to |names|
      invariant |all| == i && LoadedUpTo(before, dir.files, dir.alive, names, i)
      invariant forall k :: 0 <= k < i ==> fresh(all[k]) && all[k].id == names[k]
      invariant forall k :: 0 <= k < i ==> all[k].Snapshot() == Normalize(before[names[k]], names[k] in dir.alive)
    {
      var c := LoadListed(dir, before, names, i);
      all := all + [c];
    }
    AllLoaded(before, dir.files, dir.alive, names);
    assert Ids(all) == names;
  }

  /** A listing of all containers, once each. */
  ghost predicate Lists(ids: seq<Id>, files: map<Id, Record>) {
    (forall i, j :: 0 <= i < j < |ids| ==> ids[i] != ids[j]) && (forall id :: id in ids <==> id in files)
  }

  ghost function IdSet(ids: seq<Id>): set<Id> { set id | id in ids }

  lemma {:induction false} ListsAllKeys(ids: seq<Id>, files: map<Id, Record>)
    requires Lists(ids, files)
    ensures IdSet(ids) == files.Keys
  {
  }

  ghost function Pruned(w: World, live: set<Id>): World {
    w.(finalized := w.finalized * live)
  }

  lemma {:induction false} DetectionIsPointwise(before: World, listed: World, ids: seq<Id>, exitAt: Id -> int)
    requires Listed(before, listed) && Lists(ids, before.files) && Proper(before)
    ensures forall id ::
              SlotIn(Pruned(ForEach(listed, ids, (id, s) => FinalizeOne(s, exitAt(id))), before.files.Keys), id)
              == FinalizeOne(SlotIn(before, id), exitAt(id))
  {
    var w := ForEach(listed, ids, (id, s) => FinalizeOne(s, exitAt(id)));
    forall id: Id
      ensures SlotIn(Pruned(w, before.files.Keys), id) == FinalizeOne(SlotIn(before, id), exitAt(id))
    {
      ForEachIsPointwise(listed, ids, (id, s) => FinalizeOne(s, exitAt(id)), id);
      ListedFinalize(before, listed, id, exitAt(id));
    }
  }

  lemma {:induction false} AdoptionIsPointwise(before: World, listed: World, ids: seq<Id>, turn: Id -> Turn)
    requires Listed(before, listed) && Lists(ids, before.files) && Proper(before)
    ensures forall id ::
              SlotIn(ForEach(listed, ids, (id, s) => AdoptOne(s, turn(id)).slot), id)
              == AdoptOne(SlotIn(before, id), turn(id)).slot
  {
    var w := ForEach(listed, ids, (id, s) => AdoptOne(s, turn(id)).slot);
    forall id: Id
      ensures SlotIn(w, id) == AdoptOne(SlotIn(before, id), turn(id)).slot
    {
      ForEachIsPointwise(listed, ids, (id, s) => AdoptOne(s, turn(id)).slot, id);
      ListedAdopt(before, listed, id, turn(id));
    }
  }

  /** The first listed container that recorded the child. */
  method OwnerAmong(all: seq<Container>, child: Child) returns (owner: Container?)
    ensures owner != null ==> owner in all && owner.recorded && child.owner == Some(owner.id)
    ensures owner == null ==> forall k :: 0 <= k < |all| && child.owner == Some(all[k].id) ==> !all[k].recorded
  {
    for i := 0 to |all|
      invariant forall k :: 0 <= k < i && child.owner == Some(all[k].id) ==> !all[k].recorded
    {
      if all[i].recorded && child.owner == Some(all[i].id) {
        return all[i];
      }
    }
    owner := null;
  }

  /** A container whose file does not record the child is only loaded. */
  lemma {:induction false} NotReaped(before: World, listed: World, ids: seq<Id>, id: Id, child: Child)
    requires Listed(before, listed) && Lists(ids, listed.files)
    requires forall k :: 0 <= k < |ids| && child.owner == Some(ids[k]) ==> !listed.files[ids[k]].recorded
    ensures SlotIn(listed, id) == ReapOne(SlotIn(before, id), child.at, child.owner == Some(id))
  {
    if id in listed.files {
      assert id in ids;
    }
  }

  lemma {:induction false} OwnerReaped(before: World, listed: World, after: World, owner: Id, id: Id, child: Child)
    requires Listed(before, listed) && child.owner == Some(owner) && owner in listed.files && listed.files[owner].recorded
    requires var r := HandleMainProcessExit(listed.files[owner], child.at);
             after == listed.(files := if r.Some? then listed.files[owner := r.value] else listed.files - {owner})
    ensures SlotIn(after, id) == ReapOne(SlotIn(before, id), child.at, child.owner == Some(id))
  {
  }

  class Supervisor {
    var managed: map<Id, Deadline>
    var finalized: set<Id>

    constructor ()
      ensures managed == map[] && finalized == {}
    {
      managed, finalized := map[], {};
    }

    ghost function Now(dir: StateDir): World
      reads this, dir
    {
      World(dir.files, dir.alive, managed, finalized)
    }

    ghost predicate Valid()
      reads this
    {
      forall id :: id in managed ==> !managed[id].Unmanaged?
    }

    /** The exit of one container, handled on a freshly loaded object. */
    method HandleExit(dir: StateDir, id: Id, now: int) returns (handled: bool)
      modifies dir`files
      ensures handled <==> id in old(dir.files)
      ensures handled ==>
                var r := HandleMainProcessExit(Normalize(old(dir.files)[id], id in dir.alive), now);
                dir.files == if r.Some? then old(dir.files)[id := r.value] else old(dir.files) - {id}
    {
      var c := Load(dir, id);
      if c == null {
        return false;
      }
      var restart := c.DoFinalizeStopped(dir, 0, now);
      if !restart && c.config.removeOnExit {
        dir.files := dir.files - {id};
      }
      handled := true;
    }

    /** The container that recorded the child, if there is one, has its exit handled. */
    method HandleExitedContainerProcess(dir: StateDir, child: Child)
      requires Valid()
      modifies dir`files
      ensures Valid()
      ensures forall id ::
                SlotIn(Now(dir), id) == ReapOne(SlotIn(old(Now(dir)), id), child.at, child.owner == Some(id))
    {
      ghost var before := Now(dir);
      var all := List(dir);
      ghost var listed := Now(dir);
      var c := OwnerAmong(all, child);
      if c == null {
        forall id: Id ensures SlotIn(listed, id) == ReapOne(SlotIn(before, id), child.at, child.owner == Some(id)) {
          NotReaped(before, listed, Ids(all), id, child);
        }
        return;
      }
      var handled := HandleExit(dir, c.id, child.at);
      forall id: Id ensures SlotIn(Now(dir), id) == ReapOne(SlotIn(before, id), child.at, child.owner == Some(id)) {
        OwnerReaped(before, listed, Now(dir), c.id, id, child);
      }
    }

    method ReapExitedContainers(dir: StateDir, children: seq<Child>)
      requires Valid()
      modifies dir`files
      ensures Valid()
      ensures forall id :: SlotIn(Now(dir), id) == After(SlotIn(old(Now(dir)), id), Reaps(children, id))
    {
      ghost var w := Now(dir);
      for i := 0 to |children|
        invariant Valid()
        invariant forall id :: SlotIn(Now(dir), id) == After(SlotIn(w, id), Reaps(children[..i], id))
      {
        forall id: Id
          ensures ReapOne(After(SlotIn(w, id), Reaps(children[..i], id)), children[i].at, children[i].owner == Some(id))
                  == After(SlotIn(w, id), Reaps(children[..i + 1], id))
        {
          ReapedOne(SlotIn(w, id), children, i, id);
        }
        HandleExitedContainerProcess(dir, children[i]);
      }
      assert children[..|children|] == children;
    }

    /** One container's turn in the exit-detection loop. */
    method Detect(dir: StateDir, c: Container, exitAt: int)
      requires Valid() && c.id in dir.files && dir.files[c.id] == c.Snapshot()
      requires c.Snapshot() == Normalize(c.Snapshot(), c.id in dir.alive)
      modifies this`finalized, dir`files
      ensures SlotIn(Now(dir), c.id) == FinalizeOne(SlotIn(old(Now(dir)), c.id), exitAt)
      ensures forall id :: id != c.id ==> SlotIn(Now(dir), id) == SlotIn(old(Now(dir)), id)
    {
      if !c.config.detach {
        return;
      }
      var live := c.IsProcessAlive(dir);
      if live {
        finalized := finalized - {c.id};
        return;
      }
      if c.id in finalized {
        return;
      }
      var handled := HandleExit(dir, c.id, exitAt);
      if handled {
        finalized := finalized + {c.id};
      }
    }

    method DetectEach(dir: StateDir, all: seq<Container>, exitAt: Id -> int)
      requires Valid() && Mirrors(all, dir.files)
      requires forall k :: 0 <= k < |all| ==> dir.files[all[k].id] == Normalize(dir.files[all[k].id], all[k].id in dir.alive)
      modifies this`finalized, dir`files
      ensures Valid()
      ensures Now(dir) == ForEach(old(Now(dir)), Ids(all), (id, s) => FinalizeOne(s, exitAt(id)))
    {
      ghost var w := Now(dir);
      ghost var ids := Ids(all);
      ghost var step: (Id, Slot) -> Slot := (id, s) => FinalizeOne(s, exitAt(id));
      var i := 0;
      while i < |all|
        invariant 0 <= i <= |all| && Valid()
        invariant forall k :: i <= k < |all| ==>
                    all[k].Snapshot() == w.files[ids[k]] && SlotIn(Now(dir), ids[k]) == SlotIn(w, ids[k])
        invariant Now(dir) == ForEach(w, ids[..i], step)
      {
        var c := all[i];
        ghost var before := Now(dir);
        SameSlot(before, w, c.id);
        Detect(dir, c, exitAt(c.id));
        Advance(w, before, Now(dir), ids, i, step);
        i := i + 1;
      }
      assert ids[..i] == ids;
    }

    /** Entries of containers that are not listed any more are dropped. */
    method Prune(all: seq<Container>)
      modifies this`finalized
      ensures finalized == old(finalized) * IdSet(Ids(all))
    {
      var live := set c <- all :: c.id;
      assert live == IdSet(Ids(all));
      finalized := set id <- finalized | id in live;
    }

    /** The exit-detection loop does to every container what `FinalizeOne` says, and leaves
        `finalized` within the containers it listed. */
    method FinalizeExitedContainers(dir: StateDir, exitAt: Id -> int)
      requires Valid()
      modifies this`finalized, dir`files
      ensures Valid()
      ensures forall id :: SlotIn(Now(dir), id) == FinalizeOne(SlotIn(old(Now(dir)), id), exitAt(id))
      ensures finalized <= old(dir.files).Keys
    {
      ghost var w0 := Now(dir);
      var all := List(dir);
      ghost var w := Now(dir);
      DetectEach(dir, all, exitAt);
      Prune(all);
      ListsAllKeys(Ids(all), w0.files);
      DetectionIsPointwise(w0, w, Ids(all), exitAt);
    }

    /** The deadline that decides this turn, recorded in `managed`. */
    method NoteDeadline(c: Container, e: Turn) returns (deadline: Deadline)
      requires Valid()
      modifies this`managed
      ensures deadline == DeadlineOf(c.Snapshot(), if c.id in old(managed) then old(managed)[c.id] else Unmanaged, e.seenAt)
      ensures managed == old(managed)[c.id := deadline] && Valid()
    {
      deadline := if c.id in managed then managed[c.id] else At(e.seenAt);
      if c.id !in managed {
        if c.lastExitAt.Some? {
          deadline := At(c.lastExitAt.value + Delay(c.config));
        }
        managed := managed[c.id := deadline];
      }
      if deadline.Zero? && c.lastExitAt.Some? {
        deadline := At(c.lastExitAt.value + Delay(c.config));
        managed := managed[c.id := deadline];
      }
    }

    /** The start that the guard granted. */
    method StartGranted(dir: StateDir, c: Container, e: Turn)
      requires Valid() && c.id in dir.files && dir.files[c.id] == c.Snapshot() && Eligible(c.Snapshot())
      modifies this, dir
      ensures Valid()
      ensures var (s, r) := (SlotIn(old(Now(dir)), c.id), c.Snapshot());
              SlotIn(Now(dir), c.id) ==
              if e.removing then s.(managed := Unmanaged)
              else if e.startOk then Slot(Some(Started(r, e.endAt)), true, Zero, false)
              else s.(managed := At(e.endAt + Delay(r.config)), finalized := false)
      ensures forall id :: id != c.id ==> SlotIn(Now(dir), id) == SlotIn(old(Now(dir)), id)
    {
      if e.removing {
        managed := managed - {c.id};
        EntryDropped(old(Now(dir)), Now(dir), c.id);
        return;
      }
      var latest := Load(dir, c.id);
      if latest == null {
        assert false;  // a tick is atomic: no file vanishes within it
      }
      if latest.status == Running || latest.stoppedByUser || latest.restartBlocked {
        return;
      }
      managed := managed[c.id := Zero];
      var ok := latest.DoStart(dir, e.endAt, e.startOk);
      if !ok {
        managed := managed[c.id := At(e.endAt + Delay(latest.config))];
      }
      finalized := finalized - {c.id};
    }

    /** The guarded start of a container that is due. */
    method StartDue(dir: StateDir, c: Container, e: Turn)
      requires Valid() && c.id in dir.files && dir.files[c.id] == c.Snapshot() && Eligible(c.Snapshot())
      modifies this, dir, c
      ensures Valid()
      ensures var (s, (r, ok)) := (SlotIn(old(Now(dir)), c.id), Allow(old(c.Snapshot()), e.guardAt));
              SlotIn(Now(dir), c.id) ==
              if !ok then s.(disk := Some(r))
              else if e.removing then s.(disk := Some(r), managed := Unmanaged)
              else if e.startOk then Slot(Some(Started(r, e.endAt)), true, Zero, false)
              else s.(disk := Some(r), managed := At(e.endAt + Delay(r.config)), finalized := false)
      ensures forall id :: id != c.id ==> SlotIn(Now(dir), id) == SlotIn(old(Now(dir)), id)
    {
      var granted := c.AllowAutomaticRestart(dir, e.guardAt);
      if granted {
        StartGranted(dir, c, e);
      }
    }

    /** The part of a turn that is about a container which is not running. */
    method AdoptStopped(dir: StateDir, c: Container, e: Turn)
      requires Valid() && c.id in dir.files && dir.files[c.id] == c.Snapshot()
      requires !c.stoppedByUser && c.config.restart != Never && c.status != Running
      modifies this, dir, c
      ensures Valid()
      ensures SlotIn(Now(dir), c.id) == AdoptOne(SlotIn(old(Now(dir)), c.id), e).slot
      ensures forall id :: id != c.id ==> SlotIn(Now(dir), id) == SlotIn(old(Now(dir)), id)
    {
      ghost var before := Now(dir);
      var deadline := NoteDeadline(c, e);
      EntrySet(before, Now(dir), c.id, deadline);
      if deadline.At? && e.checkAt < deadline.t {
        return;
      }
      if !(c.config.detach && !c.restartBlocked && c.config.restart in {Always, UnlessStopped}) {
        return;
      }
      StartDue(dir, c, e);
    }

    /** One container's turn in the adoption loop. */
    method Adopt(dir: StateDir, c: Container, e: Turn)
      requires Valid() && c.id in dir.files && dir.files[c.id] == c.Snapshot()
      requires c.Snapshot() == Normalize(c.Snapshot(), c.id in dir.alive)
      modifies this, dir, c
      ensures Valid()
      ensures SlotIn(Now(dir), c.id) == AdoptOne(SlotIn(old(Now(dir)), c.id), e).slot
      ensures forall id :: id != c.id ==> SlotIn(Now(dir), id) == SlotIn(old(Now(dir)), id)
    {
      ghost var before := Now(dir);
      if c.stoppedByUser || c.config.restart == Never {
        managed := managed - {c.id};
        EntryDropped(before, Now(dir), c.id);
        return;
      }
      if c.status == Running {
        if c.config.detach {
          managed := managed[c.id := Zero];
          EntrySet(before, Now(dir), c.id, Zero);
        }
        return;
      }
      AdoptStopped(dir, c, e);
    }

    method AdoptEach(dir: StateDir, all: seq<Container>, turn: Id -> Turn)
      requires Valid() && Mirrors(all, dir.files)
      requires forall k :: 0 <= k < |all| ==> dir.files[all[k].id] == Normalize(dir.files[all[k].id], all[k].id in dir.alive)
      modifies this, dir, all
      ensures Valid()
      ensures Now(dir) == ForEach(old(Now(dir)), Ids(all), (id, s) => AdoptOne(s, turn(id)).slot)
    {
      ghost var w := Now(dir);
      ghost var ids := Ids(all);
      ghost var step: (Id, Slot) -> Slot := (id, s) => AdoptOne(s, turn(id)).slot;
      var i := 0;
      while i < |all|
        invariant 0 <= i <= |all| && Valid()
        invariant forall k :: i <= k < |all| ==>
                    all[k].Snapshot() == w.files[ids[k]] && SlotIn(Now(dir), ids[k]) == SlotIn(w, ids[k])
        invariant Now(dir) == ForEach(w, ids[..i], step)
      {
        var c := all[i];
        ghost var before := Now(dir);
        SameSlot(before, w, c.id);
        Adopt(dir, c, turn(c.id));
        Advance(w, before, Now(dir), ids, i, step);
        i := i + 1;
      }
      assert ids[..i] == ids;
    }

    /** The adoption loop does to every container what `AdoptOne` says. */
    method AdoptEligibleContainers(dir: StateDir, turn: Id -> Turn)
      requires Valid()
      modifies this, dir
      ensures Valid()
      ensures forall id :: SlotIn(Now(dir), id) == AdoptOne(SlotIn(old(Now(dir)), id), turn(id)).slot
    {
      ghost var w0 := Now(dir);
      var all := List(dir);
      ghost var w := Now(dir);
      AdoptEach(dir, all, turn);
      AdoptionIsPointwise(w0, w, Ids(all), turn);
    }

    /** One poll: every container takes exactly the steps that the whole-run theorems are about. */
    method Poll(dir: StateDir, children: seq<Child>, exitAt: Id -> int, turn: Id -> Turn)
      requires Valid()
      modifies this, dir
      ensures Valid()
      ensures forall id :: SlotIn(Now(dir), id) == After(SlotIn(old(Now(dir)), id), PollRun(children, id, exitAt(id), turn(id)))
    {
      ghost var w := Now(dir);
      forall id: Id
        ensures After(SlotIn(w, id), PollRun(children, id, exitAt(id), turn(id)))
                == Step(After(SlotIn(w, id), Reaps(children, id)), Tick(exitAt(id), turn(id)))
      {
        AfterSnoc(SlotIn(w, id), Reaps(children, id), Tick(exitAt(id), turn(id)));
      }
      ReapExitedContainers(dir, children);
      FinalizeExitedContainers(dir, exitAt);
      AdoptEligibleContainers(dir, turn);
    }
  }
}
