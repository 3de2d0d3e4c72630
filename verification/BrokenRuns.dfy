/** Runs on which the promise fails where its condition does: a completed sweep that leaves a
    dangling reference, and a marker whose archive is gone. Both start from a cache in order. */
module BrokenRuns {
  import opened Wrappers
  import opened StoreHashes
  import opened NarInfos
  import opened Reachability
  import opened Closures
  import ClosureCache
  import opened LockProtocol
  import opened CacheProtocol
  import opened CacheSafety
  import opened MarkerSafety
  import CacheRuns

  const ROOTS: set<Dir> := {0}

  ghost predicate Story(meta: Meta, ws: seq<World>, xs: seq<Action>) {
    && CacheRuns.Run(ROOTS, ws, xs) && CacheRuns.Immutable(meta, ws[0], xs)
    && CacheRuns.GoodCache(ROOTS, ws[0]) && ws[0].tidy && ws[0].archivesOk && ws[0].savesOk
  }

  /** Some run from a good and tidy cache comes to `w`. */
  ghost predicate Reached(meta: Meta, w: World) {
    exists ws, xs :: Story(meta, ws, xs) && ws[|xs|] == w
  }

  lemma Start(meta: Meta, w: World)
    requires CacheRuns.Init(ROOTS, w) && w.tidy && w.archivesOk && w.savesOk
    requires Faithful(meta, w.disk) && Faithful(meta, w.saved) && CacheRuns.GoodCache(ROOTS, w)
    ensures Reached(meta, w)
  {
    var ws, xs: seq<Action> := [w], [];
    assert Story(meta, ws, xs) && ws[|xs|] == w;
  }

  lemma RunGoesOn(ws: seq<World>, xs: seq<Action>, x: Action, w': World)
    requires CacheRuns.Run(ROOTS, ws, xs)
    requires CacheProtocol.Can(ROOTS, ws[|xs|], x) && w' == CacheProtocol.Do(ROOTS, ws[|xs|], x)
    ensures CacheRuns.Run(ROOTS, ws + [w'], xs + [x])
  {
    var ws', xs' := ws + [w'], xs + [x];
    forall i | 0 <= i < |xs'| ensures CacheProtocol.Can(ROOTS, ws'[i], xs'[i]) && ws'[i + 1] == CacheProtocol.Do(ROOTS, ws'[i], xs'[i]) {
      if i < |xs| {
        assert ws'[i] == ws[i] && ws'[i + 1] == ws[i + 1] && xs'[i] == xs[i];
      }
    }
  }

  lemma StoryGoesOn(meta: Meta, ws: seq<World>, xs: seq<Action>, x: Action, w': World)
    requires Story(meta, ws, xs) && CacheProtocol.Can(ROOTS, ws[|xs|], x) && w' == CacheProtocol.Do(ROOTS, ws[|xs|], x)
    requires x.Writes? && x.write.Start? ==> Faithful(meta, x.write.plan)
    ensures Story(meta, ws + [w'], xs + [x])
  {
    RunGoesOn(ws, xs, x, w');
    assert (ws + [w'])[0] == ws[0];
  }

  lemma Step(meta: Meta, w: World, x: Action, w': World)
    requires Reached(meta, w) && CacheProtocol.Can(ROOTS, w, x) && w' == CacheProtocol.Do(ROOTS, w, x)
    requires x.Writes? && x.write.Start? ==> Faithful(meta, x.write.plan)
    ensures Reached(meta, w')
  {
    var ws, xs :| Story(meta, ws, xs) && ws[|xs|] == w;
    StoryGoesOn(meta, ws, xs, x, w');
    assert (ws + [w'])[|xs + [x]|] == w';
  }

  // ----- Taking the lock -----

  predicate Taking(k: Slot, e: Event) {
    (e.BeginRead? || e.Visit? || e.EndRead? || e.Create? || e.RemoteCreate?) && e.slot == k
  }

  ghost predicate LockRun(k: Slot, ss: seq<Locks>, es: seq<Event>) {
    && |ss| == |es| + 1
    && forall i :: 0 <= i < |es| ==> Taking(k, es[i]) && LockProtocol.Can(ss[i], es[i]) && ss[i + 1] == LockProtocol.Do(ss[i], es[i])
  }

  /** Events of `k` alone lead from `s` to `s'`. */
  ghost predicate LocksLead(k: Slot, s: Locks, s': Locks) {
    exists ss, es :: LockRun(k, ss, es) && ss[0] == s && ss[|es|] == s'
  }

  lemma LockStep(k: Slot, s: Locks, t: Locks, e: Event, s': Locks)
    requires LocksLead(k, s, t) && Taking(k, e) && LockProtocol.Can(t, e) && s' == LockProtocol.Do(t, e)
    ensures LocksLead(k, s, s')
  {
    var ss, es :| LockRun(k, ss, es) && ss[0] == s && ss[|es|] == t;
    var ss', es' := ss + [s'], es + [e];
    assert LockRun(k, ss', es') && ss'[0] == s && ss'[|es'|] == s';
  }

  lemma {:induction false} Lifted(meta: Meta, w: World, k: Slot, ss: seq<Locks>, es: seq<Event>, i: nat)
    requires Reached(meta, w) && AtWork(w, k) && LockRun(k, ss, es) && ss[0] == w.locks && i < |ss|
    ensures Reached(meta, w.(locks := ss[i]))
    decreases i
  {
    if i == 0 {
      assert w.(locks := ss[0]) == w;
    } else {
      Lifted(meta, w, k, ss, es, i - 1);
      Step(meta, w.(locks := ss[i - 1]), Lock(es[i - 1]), w.(locks := ss[i]));
    }
  }

  lemma LocksTaken(meta: Meta, w: World, k: Slot, s: Locks)
    requires Reached(meta, w) && AtWork(w, k) && LocksLead(k, w.locks, s)
    ensures Reached(meta, w.(locks := s))
  {
    var ss, es :| LockRun(k, ss, es) && ss[0] == w.locks && ss[|es|] == s;
    Lifted(meta, w, k, ss, es, |es|);
  }

  function At(s: Locks, k: Slot, phase: Phase): Locks {
    s.(phase := s.phase[k := phase])
  }

  predicate NoConcern(s: Locks, k: Slot, a: Agent) {
    Slot(k.dir, a) in s.files && !(Sees(k.agent, a) && SeenFresh(k.agent, s.now, s.files[Slot(k.dir, a)]))
  }

  function ReadPhase(recheck: bool, r: Read): Phase {
    if recheck then Rechecking(r) else Polling(r)
  }

  /** A read passes over entries that are of no concern to the reader. */
  lemma {:induction false} SeesNothing(s0: Locks, s: Locks, k: Slot, recheck: bool, todo: set<Agent>)
    requires k.agent !in s.crashed && forall a :: a in todo ==> NoConcern(s, k, a)
    requires LocksLead(k, s0, At(s, k, ReadPhase(recheck, Read(s.now, todo, false))))
    ensures LocksLead(k, s0, At(s, k, ReadPhase(recheck, Read(s.now, {}, false))))
    decreases todo
  {
    if todo == {} {
    } else {
      var a :| a in todo;
      var t := At(s, k, ReadPhase(recheck, Read(s.now, todo, false)));
      var t' := At(s, k, ReadPhase(recheck, Read(s.now, todo - {a}, false)));
      assert NoConcern(s, k, a);
      LockStep(k, s0, t, Visit(k, a), t');
      SeesNothing(s0, s, k, recheck, todo - {a});
    }
  }

  lemma ReadsQuietly(s0: Locks, s: Locks, k: Slot, recheck: bool)
    requires LocksLead(k, s0, s) && WellPlaced(k) && k.agent !in s.crashed
    requires forall a :: a in Present(s, k.dir) ==> NoConcern(s, k, a)
    requires if recheck then k in s.phase && s.phase[k].Created? else k !in s.phase
    ensures LocksLead(k, s0, At(s, k, if recheck then Held else Clear))
  {
    var t := At(s, k, ReadPhase(recheck, Read(s.now, Present(s, k.dir), false)));
    LockStep(k, s0, s, BeginRead(k), t);
    SeesNothing(s0, s, k, recheck, Present(s, k.dir));
    var u := At(s, k, ReadPhase(recheck, Read(s.now, {}, false)));
    LockStep(k, s0, u, EndRead(k), At(s, k, if recheck then Held else Clear));
  }

  /** All lock files in the directory are stale. */
  ghost predicate OnlyStale(s: Locks, d: Dir) {
    forall k :: k in s.files && k.dir == d ==> Age(s.now, s.files[k]) > STALE_AFTER
  }

  function WithLock(s: Locks, k: Slot): Locks {
    s.(files := s.files[k := s.now], phase := s.phase[k := Held])
  }

  /** A pruner gets the lock of a directory in which only stale locks lie. */
  lemma TakesLock(s: Locks, k: Slot)
    requires k.agent.Pruner? && k.agent !in s.crashed && k !in s.phase && OnlyStale(s, k.dir)
    ensures LocksLead(k, s, WithLock(s, k))
  {
    var ss, es: seq<Event> := [s], [];
    assert LockRun(k, ss, es);
    forall a | a in Present(s, k.dir) ensures NoConcern(s, k, a) {
      assert Slot(k.dir, a) in s.files;
    }
    ReadsQuietly(s, s, k, false);
    var created := s.(files := s.files[k := s.now], phase := s.phase[k := Created]);
    LockStep(k, s, At(s, k, Clear), Create(k), created);
    forall a | a in Present(created, k.dir) ensures NoConcern(created, k, a) {
      assert Slot(k.dir, a) in created.files;
    }
    ReadsQuietly(s, created, k, true);
    assert At(created, k, Held) == WithLock(s, k);
  }

  // ----- Taking part -----

  lemma Prunes1(meta: Meta, w: World, p: Agent, x: PruneStep, w': World)
    requires Reached(meta, w) && p.Pruner? && CanPrune(ROOTS, w, p, x) && w' == DoPrune(ROOTS, w, p, x)
    ensures Reached(meta, w')
  {
    Step(meta, w, Prunes(p, x), w');
  }

  lemma Writes1(meta: Meta, w: World, a: Agent, x: WriteStep, w': World)
    requires Reached(meta, w) && a.Writer? && CanWrite(ROOTS, w, a, x) && w' == DoWrite(ROOTS, w, a, x)
    requires x.Start? ==> Faithful(meta, x.plan)
    ensures Reached(meta, w')
  {
    Step(meta, w, Writes(a, x), w');
  }

  function Staged(w: World, p: Agent, stage: PruneStage): World {
    w.(pruners := w.pruners[p := Prune([0], stage)])
  }

  function LockedBy(w: World, a: Agent): World {
    w.(locks := WithLock(w.locks, Slot(0, a)))
  }

  function MarkersIn0(w: World): set<Agent> {
    set m | m in w.markers && InDirs(m, [0])
  }

  lemma PrunerLocks(meta: Meta, w: World, p: Agent)
    requires Reached(meta, w) && p.Pruner? && p !in w.locks.crashed && p !in w.pruners
    requires Slot(0, p) !in w.locks.phase && OnlyStale(w.locks, 0)
    ensures Reached(meta, Staged(LockedBy(w, p), p, Acquiring(0)))
  {
    var k := Slot(0, p);
    var w1 := Staged(w, p, Acquiring(0));
    Prunes1(meta, w, p, Begin([0]), w1);
    TakesLock(w.locks, k);
    LocksTaken(meta, w1, k, WithLock(w.locks, k));
  }

  lemma Restaged(w: World, p: Agent, before: PruneStage, after: PruneStage)
    ensures Staged(Staged(w, p, before), p, after) == Staged(w, p, after)
  {
    assert w.pruners[p := Prune([0], before)][p := Prune([0], after)] == w.pruners[p := Prune([0], after)];
  }

  /** A step of `p` that only moves it on. */
  lemma MovesOn(meta: Meta, w: World, p: Agent, before: PruneStage, x: PruneStep, after: PruneStage)
    requires p.Pruner? && Reached(meta, Staged(w, p, before)) && CanPrune(ROOTS, Staged(w, p, before), p, x)
    requires DoPrune(ROOTS, Staged(w, p, before), p, x) == Staged(Staged(w, p, before), p, after)
    ensures Reached(meta, Staged(w, p, after))
  {
    Restaged(w, p, before, after);
    Prunes1(meta, Staged(w, p, before), p, x, Staged(w, p, after));
  }

  lemma PrunerStarts(meta: Meta, w: World, p: Agent)
    requires p.Pruner? && p !in w.locks.crashed
    requires Reached(meta, Staged(LockedBy(w, p), p, Acquiring(0)))
    ensures Reached(meta, Staged(LockedBy(w, p), p, Collecting(MarkersIn0(w), {})))
  {
    var v := LockedBy(w, p);
    assert IsHeld(v.locks, Slot(0, p)) && Live(v.locks, Slot(0, p));
    MovesOn(meta, v, p, Acquiring(0), Advance, Acquiring(1));
    MovesOn(meta, v, p, Acquiring(1), BeginCollect, Collecting(MarkersIn0(w), {}));
  }

  /** A new pruner locks the directory and begins to collect. */
  lemma PrunerCollects(meta: Meta, w: World, p: Agent)
    requires Reached(meta, w) && p.Pruner? && p !in w.locks.crashed && p !in w.pruners
    requires Slot(0, p) !in w.locks.phase && OnlyStale(w.locks, 0)
    ensures Reached(meta, Staged(LockedBy(w, p), p, Collecting(MarkersIn0(w), {})))
  {
    PrunerLocks(meta, w, p);
    PrunerStarts(meta, w, p);
  }

  function Copies(w: World, a: Agent, copy: Publish): World {
    w.(writers := w.writers[a := copy])
  }

  lemma WriterLocks(meta: Meta, w: World, a: Agent, root: StoreHash, plan: Infos)
    requires Reached(meta, w) && a.Writer? && a.dir == 0 && a !in w.locks.crashed && a !in w.writers
    requires Slot(0, a) !in w.locks.phase && OnlyStale(w.locks, 0)
    requires PlanOk(root, plan) && Faithful(meta, plan)
    ensures Reached(meta, Copies(LockedBy(w, a), a, Publish(root, plan, Locking)))
  {
    var w1 := Copies(w, a, Publish(root, plan, Locking));
    Writes1(meta, w, a, CacheProtocol.Start(root, plan), w1);
    Step(meta, w1, Lock(RemoteCreate(Slot(0, a))), LockedBy(w1, a));
  }

  /** A new writer gets the lock and asks what is there. */
  lemma WriterCopies(meta: Meta, w: World, a: Agent, root: StoreHash, plan: Infos)
    requires Reached(meta, w) && a.Writer? && a.dir == 0 && a !in w.locks.crashed && a !in w.writers
    requires Slot(0, a) !in w.locks.phase && OnlyStale(w.locks, 0)
    requires PlanOk(root, plan) && Faithful(meta, plan)
    ensures Reached(meta, Copies(LockedBy(w, a), a, Publish(root, plan, Copying(w.disk.Keys * plan.Keys, {}, {}))))
  {
    WriterLocks(meta, w, a, root, plan);
    var v := LockedBy(w, a);
    var copying := Publish(root, plan, Copying(w.disk.Keys * plan.Keys, {}, {}));
    assert IsHeld(v.locks, Slot(0, a)) && Live(v.locks, Slot(0, a));
    assert v.writers[a := Publish(root, plan, Locking)][a := copying] == v.writers[a := copying];
    Writes1(meta, Copies(v, a, Publish(root, plan, Locking)), a, Snapshot, Copies(v, a, copying));
  }

  // ----- A marker whose archive is gone -----

  lemma NothingKept(disk: Infos)
    ensures Scan(disk, map[], {}) == map[] && SavedForm(map[]) == map[] && DeriversWhole(disk, map[])
  {
    var none: set<StoreHash> := {};
    ReachLeast(ScanEdges(View(disk, map[])), none, iset g | g in none);
  }

  const FIRST := Pruner(0)
  const JOB := Writer(0, 0)

  function Fresh(disk: Infos, nars: set<Bytes>): World {
    World(Locks(0, map[], map[], {}), disk, nars, map[], map[], map[], map[], true, true, true)
  }

  /** A pruner comes to a cache without markers. */
  lemma FirstScan(meta: Meta, disk: Infos, nars: set<Bytes>)
    requires Faithful(meta, disk) && AllFit(disk) && NarsPresent(disk, nars) && RefsWithin(disk)
    ensures Reached(meta, Staged(LockedBy(Fresh(disk, nars), FIRST), FIRST, SweepInfos(map[], true)))
  {
    var w := Fresh(disk, nars);
    var none: set<StoreHash> := {};
    ReachLeast(RefEdges(OnDisk(disk)), none, iset g | g in none);
    assert w.markers.Values == none;
    Start(meta, w);
    PrunerCollects(meta, w, FIRST);
    assert MarkersIn0(w) == {};
    NothingKept(disk);
    MovesOn(meta, LockedBy(w, FIRST), FIRST, Collecting({}, {}), ScanAndSave(true), SweepInfos(map[], true));
  }

  /** A first pass ends although it has left a narinfo with an archive of its own. */
  lemma PassFails(meta: Meta, v: World, p: Agent, h: StoreHash)
    requires p.Pruner? && Live(v.locks, Slot(0, p)) && h in v.disk && v.disk[h].Archive().Some?
    requires Reached(meta, Staged(v, p, SweepInfos(map[], true)))
    ensures Reached(meta, Staged(v.(archivesOk := false), p, SweepNars(map[])))
  {
    assert !LeftoversShare(v.disk, map[]);
    assert ActivePruner(Staged(v, p, SweepInfos(map[], true)), p);
    Restaged(v, p, SweepInfos(map[], true), SweepNars(map[]));
    Prunes1(meta, Staged(v, p, SweepInfos(map[], true)), p, EndInfos, Staged(v.(archivesOk := false), p, SweepNars(map[])));
  }

  lemma ArchiveTaken(meta: Meta, v: World, p: Agent, n: Bytes)
    requires p.Pruner? && Live(v.locks, Slot(0, p)) && v.nars == {n}
    requires Reached(meta, Staged(v, p, SweepNars(map[])))
    ensures Reached(meta, Staged(v.(nars := {}), p, Releasing))
  {
    assert ActivePruner(Staged(v, p, SweepNars(map[])), p);
    assert v.nars - {n} == {};
    Prunes1(meta, Staged(v, p, SweepNars(map[])), p, RemoveNar(n), Staged(v.(nars := {}), p, SweepNars(map[])));
    MovesOn(meta, v.(nars := {}), p, SweepNars(map[]), EndNars, Releasing);
  }

  lemma Released(meta: Meta, v: World, p: Agent)
    requires p.Pruner? && p !in v.locks.crashed && v.locks.phase == map[] && v.locks.files == map[]
    requires Reached(meta, Staged(LockedBy(v, p), p, Releasing))
    ensures Reached(meta, Staged(v, p, Releasing))
  {
    var k := Slot(0, p);
    var s := WithLock(v.locks, k);
    assert s.files - {k} == map[] && s.phase - {k} == map[] && Forget(map[], k) == map[];
    Prunes1(meta, Staged(LockedBy(v, p), p, Releasing), p, Release(0, true), Staged(v, p, Releasing));
  }

  lemma StuckNarinfoSweep(meta: Meta, h: StoreHash, info: NarInfo)
    requires info.Archive().Some? && ClosureCache.Fits(info) && info.References() <= {h} && meta(h) == info
    ensures Reached(meta, Staged(Fresh(map[h := info], {}).(archivesOk := false), FIRST, Releasing))
  {
    var n := info.Archive().value;
    var w := Fresh(map[h := info], {n});
    FirstScan(meta, w.disk, {n});
    PassFails(meta, LockedBy(w, FIRST), FIRST, h);
    ArchiveTaken(meta, LockedBy(w, FIRST).(archivesOk := false), FIRST, n);
    Released(meta, w.(nars := {}, archivesOk := false), FIRST);
  }

  lemma MarkerLands(meta: Meta, v: World, a: Agent, copy: Publish)
    requires a.Writer? && a.dir == 0 && Live(v.locks, Slot(0, a)) && v.markers == map[]
    requires copy.stage.Copying? && copy.plan.Keys <= copy.stage.infoDone + copy.stage.skip
    requires Reached(meta, Copies(v, a, copy))
    ensures Reached(meta, Copies(v, a, copy).(markers := map[a := copy.root]))
  {
    Writes1(meta, Copies(v, a, copy), a, PutMarker, Copies(v, a, copy).(markers := map[a := copy.root]));
  }

  function Swept(h: StoreHash, info: NarInfo): World {
    Staged(Fresh(map[h := info], {}).(archivesOk := false), FIRST, Releasing)
  }

  lemma StuckNarinfoSkipped(meta: Meta, h: StoreHash, info: NarInfo, w: World)
    requires ClosureCache.Fits(info) && info.References() <= {h} && meta(h) == info
    requires w == Swept(h, info) && Reached(meta, w)
    ensures Reached(meta, Copies(LockedBy(w, JOB), JOB, Publish(h, w.disk, Copying({h}, {}, {}))))
  {
    WriterCopies(meta, w, JOB, h, w.disk);
    assert w.disk.Keys * w.disk.Keys == {h};
  }

  lemma Unserved(w: World, h: StoreHash)
    requires w.markers == map[JOB := h] && h in w.disk && w.disk[h].Archive().Some? && w.nars == {}
    ensures !CacheRuns.MarkersServed(w)
  {
    assert w.markers[JOB] == h && h in w.markers.Values;
    ReachRoot(RefEdges(OnDisk(w.disk)), w.markers.Values, h);
  }

  function StuckEnd(h: StoreHash, info: NarInfo): World {
    Copies(LockedBy(Swept(h, info), JOB), JOB, Publish(h, map[h := info], Copying({h}, {}, {}))).(markers := map[JOB := h])
  }

  lemma StuckMarkerLands(meta: Meta, h: StoreHash, info: NarInfo)
    requires ClosureCache.Fits(info) && info.References() <= {h} && meta(h) == info
    requires Reached(meta, Swept(h, info))
    ensures Reached(meta, StuckEnd(h, info))
  {
    var w := Swept(h, info);
    StuckNarinfoSkipped(meta, h, info, w);
    assert Live(LockedBy(w, JOB).locks, Slot(0, JOB));
    MarkerLands(meta, LockedBy(w, JOB), JOB, Publish(h, map[h := info], Copying({h}, {}, {})));
  }

  /** A narinfo that a first pass failed to remove loses its archive to the second; a writer that
      comes later skips it as present, and its marker lands on a closure that cannot be served. */
  lemma StuckNarinfoBreaksMarker(h: StoreHash, info: NarInfo)
    requires info.Archive().Some? && ClosureCache.Fits(info) && info.References() <= {h}
    ensures exists meta, w :: Reached(meta, w) && JOB in w.markers && w.markers[JOB] == h && !CacheRuns.MarkersServed(w)
  {
    var meta: Meta := _ => info;
    StuckNarinfoSweep(meta, h, info);
    StuckMarkerLands(meta, h, info);
    Unserved(StuckEnd(h, info), h);
  }

  // ----- A completed sweep that leaves a dangling reference -----

  const SECOND := Pruner(1)

  /** `c` refers to `b`; `a` has `c` for its deriver. Each may refer to itself, and each has an
      archive. */
  datatype Tale = Tale(a: StoreHash, b: StoreHash, c: StoreHash, ia: NarInfo, ib: NarInfo, ic: NarInfo) {
    ghost predicate Told() {
      && a != b && b != c && a != c
      && ia.References() <= {a} && ib.References() <= {b} && {b} <= ic.References() <= {b, c}
      && ia.deriver == Some(c)
      && Publishable(ia) && Publishable(ib) && Publishable(ic)
    }

    predicate Publishable(info: NarInfo) {
      ClosureCache.Fits(info) && info.Archive().Some?
    }

    function Before(): Infos {
      map[b := ib, c := ic]
    }

    function Left(): Infos {
      map[c := ic]
    }

    function After(): Infos {
      map[c := ic, a := ia]
    }

    function Archives(): set<Bytes>
      requires Publishable(ib) && Publishable(ic)
    {
      {ib.Archive().value, ic.Archive().value}
    }

    function Meta(): Meta {
      h => if h == a then ia else if h == c then ic else ib
    }
  }

  /** A world in which the first pruner has crashed long ago. */
  function Abandoned(disk: Infos, nars: set<Bytes>): World {
    Staged(LockedBy(Fresh(disk, nars), FIRST), FIRST, SweepInfos(map[], true))
      .(tidy := false, locks := Locks(STALE_AFTER + 1, map[Slot(0, FIRST) := 0], map[Slot(0, FIRST) := Held], {FIRST}))
  }

  /** A sweep is cut short by a crash when it has removed `b`, and its lock goes stale. */
  lemma Interrupted(t: Tale)
    requires t.Told()
    ensures Reached(t.Meta(), Abandoned(t.Left(), t.Archives()))
  {
    FirstScan(t.Meta(), t.Before(), t.Archives());
    var w := Staged(LockedBy(Fresh(t.Before(), t.Archives()), FIRST), FIRST, SweepInfos(map[], true));
    RemovesInfo(t, w);
    Dies(t.Meta(), w.(disk := t.Left(), tidy := false));
  }

  lemma RemovesInfo(t: Tale, w: World)
    requires t.Told() && Reached(t.Meta(), w)
    requires w == Staged(LockedBy(Fresh(t.Before(), t.Archives()), FIRST), FIRST, SweepInfos(map[], true))
    ensures Reached(t.Meta(), w.(disk := t.Left(), tidy := false))
  {
    assert ActivePruner(w, FIRST);
    assert t.Before() - {t.b} == t.Left();
    Prunes1(t.Meta(), w, FIRST, RemoveInfo(t.b), w.(disk := t.Left(), tidy := false));
  }

  lemma Dies(meta: Meta, w: World)
    requires Reached(meta, w) && w.locks == WithLock(Locks(0, map[], map[], {}), Slot(0, FIRST))
    ensures Reached(meta, w.(locks := Locks(STALE_AFTER + 1, map[Slot(0, FIRST) := 0], map[Slot(0, FIRST) := Held], {FIRST})))
  {
    var w1 := w.(locks := w.locks.(crashed := {FIRST}));
    Step(meta, w, Lock(Crash(FIRST)), w1);
    Step(meta, w1, Lock(Tick(STALE_AFTER + 1)), w1.(locks := w1.locks.(now := STALE_AFTER + 1)));
  }

  function Uploading(w: World, a: StoreHash, info: NarInfo, narDone: set<StoreHash>, infoDone: set<StoreHash>): World {
    Copies(w, JOB, Publish(a, map[a := info], Copying({}, narDone, infoDone)))
  }

  lemma Recopied(w: World, a: Agent, copy: Publish, copy': Publish)
    ensures Copies(Copies(w, a, copy), a, copy') == Copies(w, a, copy')
  {
    assert w.writers[a := copy][a := copy'] == w.writers[a := copy'];
  }

  lemma UploadsNar(meta: Meta, w: World, a: StoreHash, info: NarInfo)
    requires Live(w.locks, Slot(0, JOB)) && info.References() <= {a} && info.Archive().Some?
    requires Reached(meta, Uploading(w, a, info, {}, {}))
    ensures Reached(meta, Uploading(w.(nars := w.nars + {info.Archive().value}), a, info, {a}, {}))
  {
    Recopied(w, JOB, Publish(a, map[a := info], Copying({}, {}, {})), Publish(a, map[a := info], Copying({}, {a}, {})));
    assert {} + {a} == {a} && info.References() - {a} == {};
    Writes1(meta, Uploading(w, a, info, {}, {}), JOB, PutNar(a), Uploading(w.(nars := w.nars + {info.Archive().value}), a, info, {a}, {}));
  }

  lemma UploadsInfo(meta: Meta, w: World, a: StoreHash, info: NarInfo)
    requires Live(w.locks, Slot(0, JOB))
    requires Reached(meta, Uploading(w, a, info, {a}, {}))
    ensures Reached(meta, Uploading(w.(disk := w.disk[a := info]), a, info, {a}, {a}))
  {
    Recopied(w, JOB, Publish(a, map[a := info], Copying({}, {a}, {})), Publish(a, map[a := info], Copying({}, {a}, {a})));
    assert {} + {a} == {a};
    Writes1(meta, Uploading(w, a, info, {a}, {}), JOB, PutInfo(a), Uploading(w.(disk := w.disk[a := info]), a, info, {a}, {a}));
  }

  /** The writer publishes `a` beside what the crash has left. */
  lemma Publishes(meta: Meta, w: World, a: StoreHash, info: NarInfo)
    requires Reached(meta, w) && JOB !in w.locks.crashed && w.writers == map[] && w.markers == map[]
    requires Slot(0, JOB) !in w.locks.phase && OnlyStale(w.locks, 0)
    requires info.References() <= {a} && info.Archive().Some? && ClosureCache.Fits(info) && meta(a) == info && a !in w.disk
    ensures Reached(meta, Uploading(With(LockedBy(w, JOB), a, info), a, info, {a}, {a}).(markers := map[JOB := a]))
  {
    WriterCopies(meta, w, JOB, a, map[a := info]);
    assert w.disk.Keys * (map[a := info]).Keys == {};
    var v := LockedBy(w, JOB);
    UploadsNar(meta, v, a, info);
    UploadsInfo(meta, v.(nars := v.nars + {info.Archive().value}), a, info);
    MarkerLands(meta, With(v, a, info), JOB, Publish(a, map[a := info], Copying({}, {a}, {a})));
  }

  function With(w: World, a: StoreHash, info: NarInfo): World
    requires info.Archive().Some?
  {
    w.(nars := w.nars + {info.Archive().value}, disk := w.disk[a := info])
  }

  /** It gives its lock back, in a directory where nobody reads. */
  lemma Unlocks(meta: Meta, w: World, copy: Publish)
    requires w.writers == map[] && JOB !in w.locks.crashed && copy.stage.Copying?
    requires Slot(0, JOB) !in w.locks.phase && Slot(0, JOB) !in w.locks.files
    requires forall k :: k in w.locks.phase ==> !Reading(w.locks.phase[k])
    requires Reached(meta, Copies(LockedBy(w, JOB), JOB, copy))
    ensures Reached(meta, w)
  {
    var k := Slot(0, JOB);
    var s := WithLock(w.locks, k);
    assert s.files - {k} == w.locks.files && s.phase - {k} == w.locks.phase && Forget(w.locks.phase, k) == w.locks.phase;
    var none: map<Agent, Publish> := map[];
    assert none[JOB := copy] - {JOB} == none;
    Writes1(meta, Copies(LockedBy(w, JOB), JOB, copy), JOB, Unlock(true), w);
  }

  /** The cache before the second sweep. */
  function Published(t: Tale): World
    requires t.Publishable(t.ia) && t.Publishable(t.ib) && t.Publishable(t.ic)
  {
    Abandoned(t.After(), t.Archives() + {t.ia.Archive().value}).(markers := map[JOB := t.a])
  }

  lemma ReachesPublished(t: Tale)
    requires t.Told()
    ensures Reached(t.Meta(), Published(t))
  {
    Interrupted(t);
    Publishes(t.Meta(), Abandoned(t.Left(), t.Archives()), t.a, t.ia);
    Unlocks(t.Meta(), Published(t), Publish(t.a, map[t.a := t.ia], Copying({}, {t.a}, {t.a})));
  }

  lemma SecondScan(t: Tale)
    requires t.Told()
    ensures Scan(t.After(), map[], {t.a}) == t.After() && SavedForm(t.After()) == t.After()
    ensures !RefsWithin(t.After())
  {
    var disk := t.After();
    ScanClosed(disk, map[], {t.a});
    assert t.a in Scan(disk, map[], {t.a}) && t.c in t.ia.Successors();
    assert t.b in disk[t.c].References() && t.b !in disk;
  }

  lemma ReadsMarker(meta: Meta, v: World, p: Agent, a: StoreHash)
    requires p.Pruner? && Live(v.locks, Slot(0, p)) && v.markers == map[JOB := a]
    requires Reached(meta, Staged(v, p, Collecting({JOB}, {})))
    ensures Reached(meta, Staged(v, p, Collecting({}, {a})))
  {
    assert {JOB} - {JOB} == {} && {} + {a} == {a};
    MovesOn(meta, v, p, Collecting({JOB}, {}), ReadMarker(JOB), Collecting({}, {a}));
  }

  lemma ScansAll(meta: Meta, v: World, p: Agent, a: StoreHash)
    requires p.Pruner? && Live(v.locks, Slot(0, p)) && v.saved == map[] && v.savesOk
    requires Scan(v.disk, map[], {a}) == v.disk && SavedForm(v.disk) == v.disk
    requires Reached(meta, Staged(v, p, Collecting({}, {a})))
    ensures Reached(meta, Staged(v.(saved := v.disk), p, SweepInfos(v.disk, DeriversWhole(v.disk, v.disk))))
  {
    var after := SweepInfos(v.disk, DeriversWhole(v.disk, v.disk));
    Restaged(v, p, Collecting({}, {a}), after);
    Prunes1(meta, Staged(v, p, Collecting({}, {a})), p, ScanAndSave(true), Staged(v.(saved := v.disk), p, after));
  }

  lemma EndsAtOnce(meta: Meta, v: World, p: Agent, whole: bool)
    requires p.Pruner? && Live(v.locks, Slot(0, p)) && v.archivesOk && !v.tidy
    requires Reached(meta, Staged(v, p, SweepInfos(v.disk, whole)))
    ensures Reached(meta, Staged(v.(tidy := whole), p, SweepNars(v.disk)))
  {
    Restaged(v, p, SweepInfos(v.disk, whole), SweepNars(v.disk));
    Prunes1(meta, Staged(v, p, SweepInfos(v.disk, whole)), p, EndInfos, Staged(v.(tidy := whole), p, SweepNars(v.disk)));
  }

  ghost function SecondEnd(v: World): World {
    Staged(v.(saved := v.disk, tidy := DeriversWhole(v.disk, v.disk)), SECOND, SweepNars(v.disk))
  }

  lemma SecondSweep(meta: Meta, v: World, a: StoreHash)
    requires Live(v.locks, Slot(0, SECOND)) && v.saved == map[] && v.markers == map[JOB := a] && v.savesOk && v.archivesOk && !v.tidy
    requires Scan(v.disk, map[], {a}) == v.disk && SavedForm(v.disk) == v.disk
    requires Reached(meta, Staged(v, SECOND, Collecting({JOB}, {})))
    ensures Reached(meta, SecondEnd(v))
  {
    ReadsMarker(meta, v, SECOND, a);
    ScansAll(meta, v, SECOND, a);
    EndsAtOnce(meta, v.(saved := v.disk), SECOND, DeriversWhole(v.disk, v.disk));
  }

  lemma ReachesEnd(t: Tale)
    requires t.Told() && Reached(t.Meta(), Published(t))
    ensures Reached(t.Meta(), SecondEnd(LockedBy(Published(t), SECOND)))
  {
    var w := Published(t);
    PrunerCollects(t.Meta(), w, SECOND);
    assert MarkersIn0(w) == {JOB};
    SecondScan(t);
    SecondSweep(t.Meta(), LockedBy(w, SECOND), t.a);
  }

  /** From a cache in order: a sweep is cut short, a path is published whose deriver is a
      leftover, and the next sweep, complete, leaves the deriver with a dangling reference. */
  lemma DeriverDangles(t: Tale)
    requires t.Told()
    ensures exists meta, w :: Reached(meta, w) && SECOND in w.pruners && w.pruners[SECOND].stage == SweepNars(w.disk) && !RefsWithin(w.disk)
  {
    ReachesPublished(t);
    ReachesEnd(t);
    SecondScan(t);
    assert SecondEnd(LockedBy(Published(t), SECOND)).disk == t.After();
  }
}
