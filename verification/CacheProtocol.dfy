/** The whole system of `spec/prune.als`, without its bounds: any number of writers uploading
    under the lock protocol, any number of pruners, any number of gcroots directories, sweeps
    that delete one file at a time, markers that may vanish, and a crash before any step. */
module CacheProtocol {
  import opened Wrappers
  import opened StoreHashes
  import opened NarInfos
  import opened Closures
  import ClosureCache
  import opened LockProtocol

  type Infos = map<StoreHash, NarInfo>

  /** `with_lock::run` together with the `nix copy` it runs. `skip` is the answer of
      `queryValidPaths`, frozen when the copy starts. */
  datatype CopyStage = Locking | Copying(skip: set<StoreHash>, narDone: set<StoreHash>, infoDone: set<StoreHash>)
  datatype Publish = Publish(root: StoreHash, plan: Infos, stage: CopyStage)

  /** `prune::run`. `dirs` is the sorted, deduplicated list of directories to lock;
      the first `held` of them are locked. */
  datatype PruneStage =
    | Acquiring(held: nat)
    | Collecting(todo: set<Agent>, roots: set<StoreHash>)
    | SweepInfos(keep: Infos, whole: bool)
    | SweepNars(keep: Infos)
    | Releasing
  datatype Prune = Prune(dirs: seq<Dir>, stage: PruneStage)

  /** `markers` is keyed by the job that owns the marker. `saved` is the closure-cache file.
      Three history variables: `savesOk`, no write of the closure cache has failed yet;
      `archivesOk`, no first pass has left a narinfo behind whose archive the second pass may
      take; `tidy`, no sweep has removed a narinfo since the last one that left all references
      in place. */
  datatype World = World(
    locks: Locks,
    disk: Infos,
    nars: set<Bytes>,
    markers: map<Agent, StoreHash>,
    saved: Infos,
    writers: map<Agent, Publish>,
    pruners: map<Agent, Prune>,
    savesOk: bool,
    archivesOk: bool,
    tidy: bool)

  datatype WriteStep =
    | Start(root: StoreHash, plan: Infos)
    | Snapshot
    | PutNar(h: StoreHash)
    | PutInfo(h: StoreHash)
    | PutMarker
    | Unlock(ok: bool)

  datatype PruneStep =
    | Begin(dirs: seq<Dir>)
    | Advance
    | GiveUp
    | BeginCollect
    | ReadMarker(m: Agent)
    | ScanAndSave(saveOk: bool)
    | RemoveInfo(h: StoreHash)
    | EndInfos
    | RemoveNar(n: Bytes)
    | EndNars
    | Release(d: Dir, ok: bool)

  datatype Action =
    | Lock(event: Event)
    | Writes(a: Agent, write: WriteStep)
    | Prunes(p: Agent, prune: PruneStep)
    | DropMarker(m: Agent)

  // ----- Who may act -----

  function WriterSlot(a: Agent): Slot
    requires a.Writer?
  {
    Slot(a.dir, a)
  }

  predicate IsHeld(s: Locks, k: Slot) {
    k in s.phase && s.phase[k].Held?
  }

  /** A writer that has its lock, still fresh, and is copying. */
  predicate ActiveWriter(w: World, a: Agent) {
    a in w.writers && a.Writer? && w.writers[a].stage.Copying? && Live(w.locks, WriterSlot(a))
  }

  /** A pruner that has all its locks, still fresh, and is reading or sweeping. */
  predicate ActivePruner(w: World, p: Agent) {
    && p in w.pruners && p.Pruner?
    && Sweeping(w.pruners[p].stage)
    && forall d :: d in w.pruners[p].dirs ==> Live(w.locks, Slot(d, p))
  }

  /** The process named in `k` is taking the lock there. */
  predicate AtWork(w: World, k: Slot) {
    match k.agent
    case Writer(d, _) => d == k.dir && k.agent in w.writers && w.writers[k.agent].stage.Locking?
    case Pruner(_) =>
      && k.agent in w.pruners && w.pruners[k.agent].stage.Acquiring?
      && (var p := w.pruners[k.agent]; p.stage.held < |p.dirs| && p.dirs[p.stage.held] == k.dir)
  }

  predicate CanLock(w: World, e: Event) {
    match e
    case BeginRead(k) => AtWork(w, k)
    case Visit(k, _) => AtWork(w, k)
    case EndRead(k) => AtWork(w, k)
    case Create(k) => AtWork(w, k)
    case RemoteCreate(k) => AtWork(w, k)
    case Remove(k, _) => AtWork(w, k) && k in w.locks.phase && w.locks.phase[k].BackingOff?
    case Refresh(k) => k.agent.Writer?
    case Tick(_) => true
    case Crash(_) => true
    case Restart(_) => false
  }

  predicate Sorted(dirs: seq<Dir>) {
    forall i, j :: 0 <= i < j < |dirs| ==> dirs[i] < dirs[j]
  }

  /** A writer copies a whole closure. */
  predicate PlanOk(root: StoreHash, plan: Infos) {
    && root in plan
    && forall h :: h in plan ==> plan[h].References() <= plan.Keys && ClosureCache.Fits(plan[h])
  }

  predicate CanWrite(gcroots: set<Dir>, w: World, a: Agent, x: WriteStep)
    requires a.Writer?
  {
    match x
    case Start(root, plan) =>
      && a.dir in gcroots && PlanOk(root, plan)
      && (a in w.locks.crashed || (a !in w.writers && WriterSlot(a) !in w.locks.phase))
    case Snapshot =>
      && a in w.writers && w.writers[a].stage.Locking?
      && IsHeld(w.locks, WriterSlot(a)) && Live(w.locks, WriterSlot(a))
    case PutNar(h) =>
      && ActiveWriter(w, a)
      && (var wr := w.writers[a]; var st := wr.stage;
          h in wr.plan && h !in st.skip && h !in st.narDone &&
          wr.plan[h].References() - {h} <= st.infoDone + st.skip)
    case PutInfo(h) =>
      && ActiveWriter(w, a) && h in w.writers[a].plan
      && h in w.writers[a].stage.narDone && h !in w.writers[a].stage.infoDone
    case PutMarker =>
      ActiveWriter(w, a) && w.writers[a].plan.Keys <= w.writers[a].stage.infoDone + w.writers[a].stage.skip
    case Unlock(_) => a in w.writers && a !in w.locks.crashed && IsHeld(w.locks, WriterSlot(a))
  }

  function SetCopy(w: World, a: Agent, st: CopyStage): World
    requires a in w.writers
  {
    w.(writers := w.writers[a := w.writers[a].(stage := st)])
  }

  function DoWrite(gcroots: set<Dir>, w: World, a: Agent, x: WriteStep): World
    requires a.Writer? && CanWrite(gcroots, w, a, x)
  {
    match x
    case Start(root, plan) =>
      w.(locks := if a in w.locks.crashed then LockProtocol.Do(w.locks, Restart(a)) else w.locks,
         writers := w.writers[a := Publish(root, plan, Locking)])
    case Snapshot => SetCopy(w, a, Copying(w.disk.Keys * w.writers[a].plan.Keys, {}, {}))
    case PutNar(h) =>
      var wr := w.writers[a];
      var archive := wr.plan[h].Archive();
      SetCopy(w, a, wr.stage.(narDone := wr.stage.narDone + {h}))
        .(nars := if archive.Some? then w.nars + {archive.value} else w.nars)
    case PutInfo(h) =>
      var wr := w.writers[a];
      SetCopy(w, a, wr.stage.(infoDone := wr.stage.infoDone + {h})).(disk := w.disk[h := wr.plan[h]])
    case PutMarker => w.(markers := w.markers[a := w.writers[a].root])
    case Unlock(ok) =>
      w.(locks := LockProtocol.Do(w.locks, Remove(WriterSlot(a), ok)), writers := w.writers - {a})
  }

  predicate CanPrune(gcroots: set<Dir>, w: World, p: Agent, x: PruneStep)
    requires p.Pruner?
  {
    if x.Begin? then p !in w.pruners && Sorted(x.dirs) && forall d :: d in gcroots ==> d in x.dirs
    else
      && p in w.pruners
      && var pr := w.pruners[p];
         match x
         case Begin(_) => false
         case Advance =>
           && p !in w.locks.crashed && pr.stage.Acquiring? && pr.stage.held < |pr.dirs|
           && IsHeld(w.locks, Slot(pr.dirs[pr.stage.held], p))
         case GiveUp =>
           && p !in w.locks.crashed && pr.stage.Acquiring? && pr.stage.held < |pr.dirs|
           && Slot(pr.dirs[pr.stage.held], p) !in w.locks.phase
         case BeginCollect =>
           && pr.stage.Acquiring? && pr.stage.held == |pr.dirs|
           && forall d :: d in pr.dirs ==> Live(w.locks, Slot(d, p))
         case ReadMarker(m) => ActivePruner(w, p) && pr.stage.Collecting? && m in w.markers && InDirs(m, pr.dirs)
         case ScanAndSave(_) => ActivePruner(w, p) && pr.stage.Collecting? && pr.stage.todo !! w.markers.Keys
         case RemoveInfo(h) => ActivePruner(w, p) && pr.stage.SweepInfos? && h in w.disk && h !in pr.stage.keep
         // Whatever could not be removed.
         case EndInfos => ActivePruner(w, p) && pr.stage.SweepInfos?
         case RemoveNar(n) => ActivePruner(w, p) && pr.stage.SweepNars? && n in w.nars && !KeptArchive(pr.stage.keep, n)
         case EndNars => ActivePruner(w, p) && pr.stage.SweepNars?
         case Release(d, _) => pr.stage.Releasing? && p !in w.locks.crashed && IsHeld(w.locks, Slot(d, p))
  }

  /** The marker lies in one of the directories. */
  predicate InDirs(m: Agent, dirs: seq<Dir>) {
    m.Writer? && m.dir in dirs
  }

  predicate KeptArchive(keep: Infos, n: Bytes) {
    exists h :: h in keep && keep[h].Archive() == Some(n)
  }

  /** Every narinfo that is not to be kept has no archive or shares it with a kept one. */
  predicate LeftoversShare(disk: Infos, keep: Infos) {
    forall h :: h in disk && h !in keep && disk[h].Archive().Some? ==> KeptArchive(keep, disk[h].Archive().value)
  }

  function SavedForm(keep: Infos): Infos {
    map h | h in keep :: ClosureCache.Stored(keep[h])
  }

  function SetStage(w: World, p: Agent, st: PruneStage): World
    requires p in w.pruners
  {
    w.(pruners := w.pruners[p := w.pruners[p].(stage := st)])
  }

  ghost function DoPrune(gcroots: set<Dir>, w: World, p: Agent, x: PruneStep): World
    requires p.Pruner? && CanPrune(gcroots, w, p, x)
  {
    match x
    case Begin(dirs) => w.(pruners := w.pruners[p := Prune(dirs, Acquiring(0))])
    case Advance => SetStage(w, p, Acquiring(w.pruners[p].stage.held + 1))
    case GiveUp => SetStage(w, p, Releasing)
    case BeginCollect => SetStage(w, p, Collecting(set m | m in w.markers && InDirs(m, w.pruners[p].dirs), {}))
    case ReadMarker(m) =>
      var st := w.pruners[p].stage;
      SetStage(w, p, Collecting(st.todo - {m}, st.roots + {w.markers[m]}))
    case ScanAndSave(saveOk) =>
      var keep := Scan(w.disk, w.saved, w.pruners[p].stage.roots);
      SetStage(w, p, SweepInfos(keep, DeriversWhole(w.disk, keep)))
        .(saved := if saveOk then SavedForm(keep) else w.saved, savesOk := w.savesOk && saveOk)
    case RemoveInfo(h) => w.(disk := w.disk - {h}, tidy := false)
    case EndInfos =>
      var st := w.pruners[p].stage;
      SetStage(w, p, SweepNars(st.keep))
        .(tidy := w.tidy || (st.whole && w.disk.Keys <= st.keep.Keys), archivesOk := w.archivesOk && LeftoversShare(w.disk, st.keep))
    case RemoveNar(n) => w.(nars := w.nars - {n})
    case EndNars => SetStage(w, p, Releasing)
    case Release(d, ok) => w.(locks := LockProtocol.Do(w.locks, Remove(Slot(d, p), ok)))
  }

  predicate Can(gcroots: set<Dir>, w: World, x: Action) {
    match x
    case Lock(e) => CanLock(w, e) && LockProtocol.Can(w.locks, e)
    case Writes(a, step) => a.Writer? && CanWrite(gcroots, w, a, step)
    case Prunes(p, step) => p.Pruner? && CanPrune(gcroots, w, p, step)
    case DropMarker(m) => m in w.markers
  }

  ghost function Do(gcroots: set<Dir>, w: World, x: Action): World
    requires Can(gcroots, w, x)
  {
    match x
    case Lock(e) => w.(locks := LockProtocol.Do(w.locks, e))
    case Writes(a, step) => DoWrite(gcroots, w, a, step)
    case Prunes(p, step) => DoPrune(gcroots, w, p, step)
    case DropMarker(m) => w.(markers := w.markers - {m})
  }

  predicate RefreshDue(w: World, a: Agent)
    requires a.Writer?
  {
    var k := WriterSlot(a);
    && k in w.locks.phase && w.locks.phase[k].Held? && a !in w.locks.crashed
    && k in w.locks.files && Age(w.locks.now, w.locks.files[k]) < STALE_AFTER
  }

  predicate Closed(root: StoreHash, plan: Infos) {
    && root in plan
    && (forall h :: h in plan ==> ClosureCache.Fits(plan[h]))
    && (forall h, i :: h in plan && 0 <= i < |plan[h].references| ==> plan[h].references[i] in plan)
  }

  /** What the system puts up with: at any moment time may pass, anybody may crash and a marker may
      vanish; a writer that holds its fresh lock may refresh it; and a crashed writer's job may be
      started again, for any closure. */
  lemma AnythingMayHappen(gcroots: set<Dir>, w: World, a: Agent, m: Agent, dt: Time, root: StoreHash, plan: Infos)
    ensures Can(gcroots, w, Lock(Tick(dt))) && Can(gcroots, w, Lock(Crash(a)))
    ensures m in w.markers ==> Can(gcroots, w, DropMarker(m))
    ensures a.Writer? && RefreshDue(w, a) ==> Can(gcroots, w, Lock(Refresh(WriterSlot(a))))
    ensures a.Writer? && a.dir in gcroots && a in w.locks.crashed && Closed(root, plan) ==>
              Can(gcroots, w, Writes(a, Start(root, plan)))
  {
  }

  // ----- Processes and their locks -----

  ghost predicate WriterInv(gcroots: set<Dir>, w: World, a: Agent)
    requires a in w.writers
  {
    && a.Writer? && a.dir in gcroots && PlanOk(w.writers[a].root, w.writers[a].plan)
    && (w.writers[a].stage.Copying? && a !in w.locks.crashed ==> IsHeld(w.locks, WriterSlot(a)))
  }

  /** How many of its directories a pruner has locked. */
  function HeldCount(pr: Prune): nat {
    match pr.stage
    case Acquiring(held) => held
    case Releasing => 0
    case _ => |pr.dirs|
  }

  ghost predicate PrunerInv(gcroots: set<Dir>, w: World, p: Agent)
    requires p in w.pruners
  {
    var pr := w.pruners[p];
    && p.Pruner? && Sorted(pr.dirs) && (forall d :: d in gcroots ==> d in pr.dirs)
    && HeldCount(pr) <= |pr.dirs|
    && (p !in w.locks.crashed ==> forall i :: 0 <= i < HeldCount(pr) ==> IsHeld(w.locks, Slot(pr.dirs[i], p)))
  }

  ghost predicate ProcInv(gcroots: set<Dir>, w: World) {
    && gcroots != {}
    && LockProtocol.Inv(w.locks)
    && (forall a :: a in w.writers ==> WriterInv(gcroots, w, a))
    && (forall p :: p in w.pruners ==> PrunerInv(gcroots, w, p))
  }

  /** The lock step an action takes, if it takes one. */
  function LockStep(w: World, x: Action): Option<Event> {
    match x
    case Lock(e) => Some(e)
    case Writes(a, Start(_, _)) => if a in w.locks.crashed then Some(Restart(a)) else None
    case Writes(a, Unlock(ok)) => if a.Writer? then Some(Remove(WriterSlot(a), ok)) else None
    case Prunes(p, Release(d, ok)) => Some(Remove(Slot(d, p), ok))
    case _ => None
  }

  predicate StepsTo(s: Locks, e: Option<Event>, s': Locks) {
    match e
    case None => s' == s
    case Some(e) => LockProtocol.Can(s, e) && s' == LockProtocol.Do(s, e)
  }

  /** `e` does not take the lock in `k` away from its holder. */
  predicate Spares(e: Option<Event>, k: Slot) {
    e.Some? ==> !(e.value.Remove? && e.value.slot == k) && !(e.value.Restart? && e.value.agent == k.agent)
  }

  /** A held lock stays held until its holder restarts or removes it. */
  lemma HeldKept(s: Locks, e: Option<Event>, s': Locks, k: Slot)
    requires StepsTo(s, e, s') && IsHeld(s, k) && Spares(e, k)
    ensures IsHeld(s', k)
  {
  }

  /** `e` does not make a lock of `a` live that was not. */
  predicate NoRevival(e: Option<Event>, a: Agent) {
    e.Some? ==>
      && ((e.value.Create? || e.value.RemoteCreate?) ==> e.value.slot.agent != a)
      && (e.value.Restart? ==> e.value.agent != a)
  }

  lemma LiveBefore(s: Locks, e: Option<Event>, s': Locks, k: Slot)
    requires StepsTo(s, e, s') && Live(s', k) && NoRevival(e, k.agent)
    ensures Live(s, k)
  {
  }

  predicate Sweeping(st: PruneStage) {
    st.Collecting? || st.SweepInfos? || st.SweepNars?
  }

  /** What an action does to the process of a writer that was there before and still is:
      nothing, or it restarts it, or it moves it on, with the lock spared. */
  predicate WriterMoves(gcroots: set<Dir>, w: World, x: Action, w': World, a: Agent)
    requires a in w.writers && a in w'.writers
  {
    || NewWriter(gcroots, w', a)
    || (&& a.Writer? && w'.writers[a].plan == w.writers[a].plan && w'.writers[a].root == w.writers[a].root
        && Spares(LockStep(w, x), WriterSlot(a))
        && (w'.writers[a].stage.Copying? ==>
              || (w.writers[a].stage.Copying? && NoRevival(LockStep(w, x), a))
              || (x == Writes(a, Snapshot) && IsHeld(w.locks, WriterSlot(a)))))
  }

  predicate NewWriter(gcroots: set<Dir>, w: World, a: Agent)
    requires a in w.writers
  {
    a.Writer? && a.dir in gcroots && w.writers[a].stage.Locking? && PlanOk(w.writers[a].root, w.writers[a].plan)
  }

  predicate NewPruner(gcroots: set<Dir>, w: World, p: Agent)
    requires p in w.pruners
  {
    && p.Pruner? && w.pruners[p].stage == Acquiring(0)
    && Sorted(w.pruners[p].dirs) && forall d :: d in gcroots ==> d in w.pruners[p].dirs
  }

  predicate ProcsMove(gcroots: set<Dir>, w: World, x: Action, w': World) {
    && (forall a :: a in w'.writers ==>
          if a in w.writers then WriterMoves(gcroots, w, x, w', a) else NewWriter(gcroots, w', a))
    && (forall p :: p in w'.pruners ==>
          if p in w.pruners then PrunerMoves(w, x, w', p) else NewPruner(gcroots, w', p))
  }

  predicate PrunerMoves(w: World, x: Action, w': World, p: Agent)
    requires p in w.pruners && p in w'.pruners
  {
    var pr, pr' := w.pruners[p], w'.pruners[p];
    && pr'.dirs == pr.dirs
    && HeldCount(pr') <= |pr.dirs|
    && (p !in w.locks.crashed ==> forall i :: HeldCount(pr) <= i < HeldCount(pr') ==> IsHeld(w.locks, Slot(pr.dirs[i], p)))
    && (HeldCount(pr') > 0 ==> forall i :: 0 <= i < HeldCount(pr') && IsHeld(w.locks, Slot(pr.dirs[i], p))
                                 ==> Spares(LockStep(w, x), Slot(pr.dirs[i], p)))
    && (Sweeping(pr'.stage) ==> (Sweeping(pr.stage) && NoRevival(LockStep(w, x), p)) || x == Prunes(p, BeginCollect))
  }

  lemma WriteLocksAfter(gcroots: set<Dir>, w: World, a: Agent, x: WriteStep)
    requires a.Writer? && CanWrite(gcroots, w, a, x)
    ensures StepsTo(w.locks, LockStep(w, Writes(a, x)), DoWrite(gcroots, w, a, x).locks)
    ensures DoWrite(gcroots, w, a, x).pruners == w.pruners
    ensures forall b :: b != a ==> (b in DoWrite(gcroots, w, a, x).writers <==> b in w.writers)
    ensures forall b :: b != a && b in w.writers ==> DoWrite(gcroots, w, a, x).writers[b] == w.writers[b]
  {
  }

  lemma WriterAfter(gcroots: set<Dir>, w: World, a: Agent, x: WriteStep)
    requires a.Writer? && CanWrite(gcroots, w, a, x)
    ensures var w' := DoWrite(gcroots, w, a, x);
            a in w'.writers ==>
              if a in w.writers then WriterMoves(gcroots, w, Writes(a, x), w', a) else NewWriter(gcroots, w', a)
  {
  }

  lemma PruneLocksAfter(gcroots: set<Dir>, w: World, p: Agent, x: PruneStep)
    requires p.Pruner? && CanPrune(gcroots, w, p, x)
    ensures StepsTo(w.locks, LockStep(w, Prunes(p, x)), DoPrune(gcroots, w, p, x).locks)
    ensures DoPrune(gcroots, w, p, x).writers == w.writers
    ensures forall q :: q != p ==> (q in DoPrune(gcroots, w, p, x).pruners <==> q in w.pruners)
    ensures forall q :: q != p && q in w.pruners ==> DoPrune(gcroots, w, p, x).pruners[q] == w.pruners[q]
  {
    OtherPruners(gcroots, w, p, x);
  }

  lemma OtherPruners(gcroots: set<Dir>, w: World, p: Agent, x: PruneStep)
    requires p.Pruner? && CanPrune(gcroots, w, p, x)
    ensures forall q :: q != p ==> (q in DoPrune(gcroots, w, p, x).pruners <==> q in w.pruners)
    ensures forall q :: q != p && q in w.pruners ==> DoPrune(gcroots, w, p, x).pruners[q] == w.pruners[q]
  {
  }

  lemma PrunerAfter(gcroots: set<Dir>, w: World, p: Agent, x: PruneStep)
    requires p.Pruner? && CanPrune(gcroots, w, p, x)
    requires p in w.pruners ==> PrunerInv(gcroots, w, p)
    ensures var w' := DoPrune(gcroots, w, p, x);
            && p in w'.pruners
            && if p in w.pruners then PrunerMoves(w, Prunes(p, x), w', p) else NewPruner(gcroots, w', p)
  {
  }

  /** Processes an action does not name stay as they are and keep their locks. */
  lemma BystandingWriter(gcroots: set<Dir>, w: World, x: Action, w': World, a: Agent)
    requires Can(gcroots, w, x) && a in w.writers && WriterInv(gcroots, w, a)
    requires a in w'.writers && w'.writers[a] == w.writers[a] && (x.Writes? ==> x.a != a)
    ensures WriterMoves(gcroots, w, x, w', a)
  {
  }

  lemma BystandingPruner(gcroots: set<Dir>, w: World, x: Action, w': World, p: Agent)
    requires Can(gcroots, w, x) && p in w.pruners && PrunerInv(gcroots, w, p)
    requires p in w'.pruners && w'.pruners[p] == w.pruners[p] && (x.Prunes? ==> x.p != p)
    ensures PrunerMoves(w, x, w', p)
  {
  }

  lemma Bystanders(gcroots: set<Dir>, w: World, x: Action, w': World)
    requires Can(gcroots, w, x)
    requires forall a :: a in w.writers ==> WriterInv(gcroots, w, a)
    requires forall p :: p in w.pruners ==> PrunerInv(gcroots, w, p)
    ensures forall a :: a in w.writers && a in w'.writers && w'.writers[a] == w.writers[a] && (x.Writes? ==> x.a != a)
              ==> WriterMoves(gcroots, w, x, w', a)
    ensures forall p :: p in w.pruners && p in w'.pruners && w'.pruners[p] == w.pruners[p] && (x.Prunes? ==> x.p != p)
              ==> PrunerMoves(w, x, w', p)
  {
    forall a | a in w.writers && a in w'.writers && w'.writers[a] == w.writers[a] && (x.Writes? ==> x.a != a)
      ensures WriterMoves(gcroots, w, x, w', a)
    {
      BystandingWriter(gcroots, w, x, w', a);
    }
    forall p | p in w.pruners && p in w'.pruners && w'.pruners[p] == w.pruners[p] && (x.Prunes? ==> x.p != p)
      ensures PrunerMoves(w, x, w', p)
    {
      BystandingPruner(gcroots, w, x, w', p);
    }
  }

  lemma ActionAfter(gcroots: set<Dir>, w: World, x: Action)
    requires Can(gcroots, w, x)
    requires forall a :: a in w.writers ==> WriterInv(gcroots, w, a)
    requires forall p :: p in w.pruners ==> PrunerInv(gcroots, w, p)
    ensures StepsTo(w.locks, LockStep(w, x), Do(gcroots, w, x).locks)
    ensures ProcsMove(gcroots, w, x, Do(gcroots, w, x))
  {
    Bystanders(gcroots, w, x, Do(gcroots, w, x));
    match x
    case Writes(a, step) =>
      WriteLocksAfter(gcroots, w, a, step);
      WriterAfter(gcroots, w, a, step);
    case Prunes(p, step) =>
      PruneLocksAfter(gcroots, w, p, step);
      PrunerAfter(gcroots, w, p, step);
    case _ =>
  }

  lemma WriterInvKept(gcroots: set<Dir>, w: World, x: Action, w': World, a: Agent)
    requires StepsTo(w.locks, LockStep(w, x), w'.locks)
    requires a in w.writers && WriterInv(gcroots, w, a)
    requires a in w'.writers && WriterMoves(gcroots, w, x, w', a)
    ensures WriterInv(gcroots, w', a)
  {
    if w'.writers[a].stage.Copying? && a !in w'.locks.crashed {
      HeldKept(w.locks, LockStep(w, x), w'.locks, WriterSlot(a));
    }
  }

  lemma PrunerInvKept(gcroots: set<Dir>, w: World, x: Action, w': World, p: Agent)
    requires StepsTo(w.locks, LockStep(w, x), w'.locks)
    requires p in w.pruners && PrunerInv(gcroots, w, p)
    requires p in w'.pruners && PrunerMoves(w, x, w', p)
    ensures PrunerInv(gcroots, w', p)
  {
    var pr := w'.pruners[p];
    if p !in w'.locks.crashed {
      assert p !in w.locks.crashed;
      forall i | 0 <= i < HeldCount(pr) ensures IsHeld(w'.locks, Slot(pr.dirs[i], p)) {
        HeldKept(w.locks, LockStep(w, x), w'.locks, Slot(pr.dirs[i], p));
      }
    }
  }

  lemma ProcInvKept(gcroots: set<Dir>, w: World, x: Action)
    requires ProcInv(gcroots, w) && Can(gcroots, w, x)
    ensures ProcInv(gcroots, Do(gcroots, w, x))
  {
    ActionAfter(gcroots, w, x);
    ProcInvFrom(gcroots, w, x, Do(gcroots, w, x));
  }

  lemma ProcInvFrom(gcroots: set<Dir>, w: World, x: Action, w': World)
    requires ProcInv(gcroots, w) && StepsTo(w.locks, LockStep(w, x), w'.locks) && ProcsMove(gcroots, w, x, w')
    ensures ProcInv(gcroots, w')
  {
    if LockStep(w, x).Some? {
      LockProtocol.InvKept(w.locks, LockStep(w, x).value);
    }
    forall a | a in w'.writers ensures WriterInv(gcroots, w', a) {
      if a in w.writers {
        WriterInvKept(gcroots, w, x, w', a);
      }
    }
    forall p | p in w'.pruners ensures PrunerInv(gcroots, w', p) {
      if p in w.pruners {
        PrunerInvKept(gcroots, w, x, w', p);
      }
    }
  }
}
