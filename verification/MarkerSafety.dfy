/** No prune ever breaks a closure a marker points at. `meta` is the one metadata a store
    hash can have: narinfos are immutable (closure_cache.rs:3-4, `Path.refs` in prune.als). */
module MarkerSafety {
  import opened Wrappers
  import opened StoreHashes
  import opened NarInfos
  import opened Reachability
  import opened Closures
  import LockProtocol
  import opened CacheProtocol
  import opened CacheSafety

  type Meta = StoreHash -> NarInfo

  ghost predicate Faithful(meta: Meta, infos: Infos) {
    forall h :: h in infos ==> infos[h] == meta(h)
  }

  ghost function Needs(meta: Meta): Edges {
    h => meta(h).References()
  }

  /** Everything some marker needs is among `kept`. */
  ghost predicate MarkersIn(meta: Meta, markers: map<Agent, StoreHash>, kept: set<StoreHash>) {
    forall h :: Reach(Needs(meta), markers.Values, h) ==> h in kept
  }

  predicate NarPresent(info: NarInfo, nars: set<Bytes>) {
    info.Archive().Some? ==> info.Archive().value in nars
  }

  ghost predicate NarsPresent(disk: Infos, nars: set<Bytes>) {
    forall h :: h in disk ==> NarPresent(disk[h], nars)
  }

  ghost predicate CopySafe(w: World, a: Agent)
    requires ActiveWriter(w, a)
  {
    var wr := w.writers[a];
    && wr.stage.skip <= w.disk.Keys && wr.stage.infoDone <= w.disk.Keys && wr.stage.infoDone <= wr.stage.narDone
    && wr.stage.narDone <= wr.plan.Keys
    && (forall h :: h in wr.stage.narDone ==> NarPresent(wr.plan[h], w.nars))
    && (forall h :: h in wr.stage.narDone ==> wr.plan[h].References() - {h} <= wr.stage.infoDone + wr.stage.skip)
  }

  ghost predicate StageSafe(meta: Meta, disk: Infos, markers: map<Agent, StoreHash>, archivesOk: bool, stage: PruneStage) {
    match stage
    case Collecting(todo, roots) =>
      && (forall m :: m in markers ==> m in todo || markers[m] in roots)
      && (forall h :: Reach(Needs(meta), roots, h) ==> h in disk)
    case SweepInfos(keep, whole) =>
      && Faithful(meta, keep) && keep.Keys <= disk.Keys && MarkersIn(meta, markers, keep.Keys)
      && (whole ==> RefsWithin(keep))
    case SweepNars(keep) =>
      && Faithful(meta, keep) && keep.Keys <= disk.Keys && MarkersIn(meta, markers, keep.Keys)
      && (archivesOk ==> LeftoversShare(disk, keep))
    case _ => true
  }

  ghost predicate SweepSafe(meta: Meta, w: World, p: Agent)
    requires p in w.pruners
  {
    StageSafe(meta, w.disk, w.markers, w.archivesOk, w.pruners[p].stage)
  }

  ghost predicate SafetyInv(gcroots: set<LockProtocol.Dir>, meta: Meta, w: World) {
    && (forall m :: m in w.markers ==> m.Writer? && m.dir in gcroots)
    && Faithful(meta, w.disk) && Faithful(meta, w.saved)
    && (forall a :: a in w.writers ==> Faithful(meta, w.writers[a].plan))
    && (w.archivesOk ==> NarsPresent(w.disk, w.nars))
    && AllFit(w.disk)
    && MarkersIn(meta, w.markers, w.disk.Keys)
    && (w.tidy ==> RefsWithin(w.disk))
    && (forall a :: ActiveWriter(w, a) ==> CopySafe(w, a))
    && (forall p :: ActivePruner(w, p) ==> SweepSafe(meta, w, p))
  }

  // ----- Scanning -----

  lemma NeedsOnDisk(meta: Meta, disk: Infos, roots: set<StoreHash>)
    requires Faithful(meta, disk)
    ensures forall h :: Reach(RefEdges(OnDisk(disk)), roots, h) ==> Reach(Needs(meta), roots, h)
  {
    ReachMonotone(RefEdges(OnDisk(disk)), roots, Needs(meta), roots);
  }

  lemma RootsAreWhole(meta: Meta, disk: Infos, roots: set<StoreHash>)
    requires Faithful(meta, disk)
    requires forall h :: Reach(Needs(meta), roots, h) ==> h in disk
    ensures forall r :: r in roots ==> Whole(disk, r)
  {
    forall r | r in roots ensures Whole(disk, r) {
      NeedsOnDisk(meta, disk, {r});
      ReachMonotone(Needs(meta), {r}, Needs(meta), roots);
    }
  }

  /** A scan from roots whose closure is on disk keeps that closure. */
  lemma ScanKeepsNeeds(meta: Meta, disk: Infos, roots: set<StoreHash>)
    requires Faithful(meta, disk)
    requires forall h :: Reach(Needs(meta), roots, h) ==> h in disk
    ensures forall h :: Reach(Needs(meta), roots, h) ==> h in Scan(disk, map[], roots)
  {
    ReachMonotone(Needs(meta), roots, ScanEdges(OnDisk(disk)), roots);
  }

  lemma AfterScan(gcroots: set<LockProtocol.Dir>, meta: Meta, w: World, p: Agent, roots: set<StoreHash>)
    requires SafetyInv(gcroots, meta, w)
    requires w.markers.Values <= roots
    requires forall h :: Reach(Needs(meta), roots, h) ==> h in w.disk
    ensures var keep := Scan(w.disk, w.saved, roots);
            && Faithful(meta, keep) && keep.Keys <= w.disk.Keys && MarkersIn(meta, w.markers, keep.Keys)
            && SavedForm(keep) == keep
            && (DeriversWhole(w.disk, keep) ==> RefsWithin(keep))
  {
    ScanFindsDisk(w.disk, w.saved, roots);
    ScanWithCache(w.disk, w.saved, roots);
    RootsAreWhole(meta, w.disk, roots);
    SweepLeavesRefs(w.disk, roots);
    ScanKeepsNeeds(meta, w.disk, roots);
    ReachMonotone(Needs(meta), w.markers.Values, Needs(meta), roots);
  }

  // ----- Writers -----

  lemma DiskFaithKeptByWrite(gcroots: set<LockProtocol.Dir>, meta: Meta, w: World, a: Agent, x: WriteStep)
    requires ProcInv(gcroots, w) && SafetyInv(gcroots, meta, w) && a.Writer? && CanWrite(gcroots, w, a, x)
    ensures var w' := DoWrite(gcroots, w, a, x);
            && (forall m :: m in w'.markers ==> m.Writer? && m.dir in gcroots)
            && Faithful(meta, w'.disk) && w'.saved == w.saved && AllFit(w'.disk)
  {
    if a in w.writers {
      assert WriterInv(gcroots, w, a);
    }
    if x.PutInfo? {
      PutKeepsFaith(gcroots, meta, w, a, x.h);
    }
  }

  lemma PutKeepsFaith(gcroots: set<LockProtocol.Dir>, meta: Meta, w: World, a: Agent, h: StoreHash)
    requires SafetyInv(gcroots, meta, w) && a.Writer? && a in w.writers && WriterInv(gcroots, w, a) && h in w.writers[a].plan
    ensures Faithful(meta, w.disk[h := w.writers[a].plan[h]]) && AllFit(w.disk[h := w.writers[a].plan[h]])
  {
    var plan := w.writers[a].plan;
    assert Faithful(meta, plan) && AllFit(plan);
    PutFaithful(meta, w.disk, plan, h);
  }

  lemma PutFaithful(meta: Meta, disk: Infos, plan: Infos, h: StoreHash)
    requires Faithful(meta, disk) && Faithful(meta, plan) && AllFit(disk) && AllFit(plan) && h in plan
    ensures Faithful(meta, disk[h := plan[h]]) && AllFit(disk[h := plan[h]])
  {
  }

  lemma PlanFaithKeptByWrite(gcroots: set<LockProtocol.Dir>, meta: Meta, w: World, a: Agent, x: WriteStep)
    requires SafetyInv(gcroots, meta, w) && a.Writer? && CanWrite(gcroots, w, a, x)
    requires x.Start? ==> Faithful(meta, x.plan)
    ensures var w' := DoWrite(gcroots, w, a, x);
            forall b :: b in w'.writers ==> Faithful(meta, w'.writers[b].plan)
  {
    var w' := DoWrite(gcroots, w, a, x);
    WriteLocksAfter(gcroots, w, a, x);
    forall b | b in w'.writers ensures Faithful(meta, w'.writers[b].plan) {
      if b == a && b in w.writers && !x.Start? {
        assert w'.writers[b].plan == w.writers[b].plan;
      }
    }
  }

  lemma FilesKeptByWrite(gcroots: set<LockProtocol.Dir>, meta: Meta, w: World, a: Agent, x: WriteStep)
    requires SafetyInv(gcroots, meta, w) && a.Writer? && CanWrite(gcroots, w, a, x)
    ensures var w' := DoWrite(gcroots, w, a, x);
            && (w'.archivesOk ==> NarsPresent(w'.disk, w'.nars))
            && (w'.tidy ==> RefsWithin(w'.disk))
  {
    if x.PutInfo? {
      var wr := w.writers[a];
      assert CopySafe(w, a);
      InfoAdded(w.disk, w.nars, x.h, wr.plan[x.h]);
    } else if x.PutNar? {
      assert w.nars <= DoWrite(gcroots, w, a, x).nars;
    }
  }

  lemma InfoAdded(disk: Infos, nars: set<Bytes>, h: StoreHash, info: NarInfo)
    requires NarPresent(info, nars) && info.References() - {h} <= disk.Keys
    ensures NarsPresent(disk, nars) ==> NarsPresent(disk[h := info], nars)
    ensures RefsWithin(disk) ==> RefsWithin(disk[h := info])
  {
  }

  /** A marker whose whole plan is on disk may join the others. */
  lemma MarkerAdded(meta: Meta, markers: map<Agent, StoreHash>, a: Agent, root: StoreHash, plan: Infos, kept: set<StoreHash>)
    requires MarkersIn(meta, markers, kept) && Faithful(meta, plan) && plan.Keys <= kept
    requires root in plan && forall h :: h in plan ==> plan[h].References() <= plan.Keys
    ensures MarkersIn(meta, markers[a := root], kept)
  {
    var all := markers.Values + {root};
    assert markers[a := root].Values <= all;
    ReachMonotone(Needs(meta), markers[a := root].Values, Needs(meta), all);
    ReachUnion(Needs(meta), markers.Values, {root});
    ReachLeast(Needs(meta), {root}, iset h | h in plan);
  }

  lemma MarkersKeptByWrite(gcroots: set<LockProtocol.Dir>, meta: Meta, w: World, a: Agent, x: WriteStep)
    requires ProcInv(gcroots, w) && SafetyInv(gcroots, meta, w) && a.Writer? && CanWrite(gcroots, w, a, x)
    ensures var w' := DoWrite(gcroots, w, a, x);
            MarkersIn(meta, w'.markers, w'.disk.Keys)
  {
    if x.PutMarker? {
      var wr := w.writers[a];
      assert WriterInv(gcroots, w, a) && CopySafe(w, a);
      MarkerAdded(meta, w.markers, a, wr.root, wr.plan, w.disk.Keys);
    } else {
      assert w.disk.Keys <= DoWrite(gcroots, w, a, x).disk.Keys;
    }
  }

  lemma CopiesKeptByWrite(gcroots: set<LockProtocol.Dir>, meta: Meta, w: World, a: Agent, x: WriteStep, w': World)
    requires SafetyInv(gcroots, meta, w) && a.Writer? && CanWrite(gcroots, w, a, x)
    requires w' == DoWrite(gcroots, w, a, x) && NoNewcomers(w, Writes(a, x), w')
    ensures forall b :: ActiveWriter(w', b) ==> CopySafe(w', b)
  {
    WriteLocksAfter(gcroots, w, a, x);
    forall b | ActiveWriter(w', b) ensures CopySafe(w', b) {
      if x != Snapshot || b != a {
        assert ActiveWriter(w, b) && CopySafe(w, b);
      }
    }
  }

  lemma SweepsKeptByWrite(gcroots: set<LockProtocol.Dir>, meta: Meta, w: World, a: Agent, x: WriteStep, w': World)
    requires ProcInv(gcroots, w) && SafetyInv(gcroots, meta, w) && a.Writer? && CanWrite(gcroots, w, a, x)
    requires w' == DoWrite(gcroots, w, a, x) && NoNewcomers(w, Writes(a, x), w')
    ensures forall p :: ActivePruner(w', p) ==> SweepSafe(meta, w', p)
  {
    WriteLocksAfter(gcroots, w, a, x);
    forall p | ActivePruner(w', p) ensures SweepSafe(meta, w', p) {
      PrunerIsAlone(gcroots, w, p);
      assert w'.disk == w.disk && w'.markers == w.markers;
      assert SweepSafe(meta, w, p);
    }
  }

  lemma SafetyKeptByWrite(gcroots: set<LockProtocol.Dir>, meta: Meta, w: World, a: Agent, x: WriteStep, w': World)
    requires ProcInv(gcroots, w) && SafetyInv(gcroots, meta, w) && a.Writer? && CanWrite(gcroots, w, a, x)
    requires x.Start? ==> Faithful(meta, x.plan)
    requires w' == DoWrite(gcroots, w, a, x) && NoNewcomers(w, Writes(a, x), w')
    ensures SafetyInv(gcroots, meta, w')
  {
    DiskFaithKeptByWrite(gcroots, meta, w, a, x);
    PlanFaithKeptByWrite(gcroots, meta, w, a, x);
    FilesKeptByWrite(gcroots, meta, w, a, x);
    MarkersKeptByWrite(gcroots, meta, w, a, x);
    CopiesKeptByWrite(gcroots, meta, w, a, x, w');
    SweepsKeptByWrite(gcroots, meta, w, a, x, w');
  }

  // ----- Pruners -----

  lemma MarkerRead(gcroots: set<LockProtocol.Dir>, meta: Meta, w: World, roots: set<StoreHash>, m: Agent)
    requires SafetyInv(gcroots, meta, w) && m in w.markers
    requires forall h :: Reach(Needs(meta), roots, h) ==> h in w.disk
    ensures forall h :: Reach(Needs(meta), roots + {w.markers[m]}, h) ==> h in w.disk
  {
    ReachUnion(Needs(meta), roots, {w.markers[m]});
    ReachMonotone(Needs(meta), {w.markers[m]}, Needs(meta), w.markers.Values);
  }

  lemma NothingNeeded(meta: Meta)
    ensures forall h :: !Reach(Needs(meta), {}, h)
  {
    var none: set<StoreHash> := {};
    ReachLeast(Needs(meta), none, iset h | h in none);
  }

  lemma PrunerKept(gcroots: set<LockProtocol.Dir>, meta: Meta, w: World, p: Agent, x: PruneStep)
    requires ProcInv(gcroots, w) && SafetyInv(gcroots, meta, w) && p.Pruner? && CanPrune(gcroots, w, p, x)
    requires ActivePruner(w, p) || x == BeginCollect
    ensures var w' := DoPrune(gcroots, w, p, x); p in w'.pruners && SweepSafe(meta, w', p)
  {
    if x == BeginCollect {
      CollectBegun(gcroots, meta, w, p);
    } else if x.ReadMarker? {
      assert SweepSafe(meta, w, p);
      MarkerRead(gcroots, meta, w, w.pruners[p].stage.roots, x.m);
    } else if x.ScanAndSave? {
      ScanKept(gcroots, meta, w, p);
    } else {
      SweepKept(gcroots, meta, w, p, x);
    }
  }

  lemma SweepKept(gcroots: set<LockProtocol.Dir>, meta: Meta, w: World, p: Agent, x: PruneStep)
    requires SafetyInv(gcroots, meta, w) && p.Pruner? && CanPrune(gcroots, w, p, x) && ActivePruner(w, p)
    requires !x.ReadMarker? && !x.ScanAndSave?
    ensures var w' := DoPrune(gcroots, w, p, x); p in w'.pruners && SweepSafe(meta, w', p)
  {
    assert SweepSafe(meta, w, p);
  }

  lemma CollectBegun(gcroots: set<LockProtocol.Dir>, meta: Meta, w: World, p: Agent)
    requires ProcInv(gcroots, w) && SafetyInv(gcroots, meta, w) && p.Pruner? && CanPrune(gcroots, w, p, BeginCollect)
    ensures var w' := DoPrune(gcroots, w, p, BeginCollect); p in w'.pruners && SweepSafe(meta, w', p)
  {
    assert PrunerInv(gcroots, w, p);
    NothingNeeded(meta);
  }

  lemma ScanKept(gcroots: set<LockProtocol.Dir>, meta: Meta, w: World, p: Agent)
    requires SafetyInv(gcroots, meta, w)
    requires ActivePruner(w, p) && w.pruners[p].stage.Collecting? && w.pruners[p].stage.todo !! w.markers.Keys
    ensures var keep := Scan(w.disk, w.saved, w.pruners[p].stage.roots);
            StageSafe(meta, w.disk, w.markers, w.archivesOk, SweepInfos(keep, DeriversWhole(w.disk, keep)))
  {
    assert SweepSafe(meta, w, p);
    assert w.markers.Values <= w.pruners[p].stage.roots;
    AfterScan(gcroots, meta, w, p, w.pruners[p].stage.roots);
  }

  lemma ArchiveNotKept(meta: Meta, disk: Infos, keep: Infos, n: Bytes)
    requires Faithful(meta, disk) && Faithful(meta, keep) && LeftoversShare(disk, keep) && !KeptArchive(keep, n)
    ensures forall h :: h in disk ==> disk[h].Archive() != Some(n)
  {
  }

  lemma InfoRemoved(gcroots: set<LockProtocol.Dir>, meta: Meta, w: World, p: Agent, h: StoreHash)
    requires SafetyInv(gcroots, meta, w)
    requires ActivePruner(w, p) && w.pruners[p].stage.SweepInfos? && h !in w.pruners[p].stage.keep
    ensures MarkersIn(meta, w.markers, (w.disk - {h}).Keys)
  {
    assert SweepSafe(meta, w, p);
  }

  lemma FaithKeptByPrune(gcroots: set<LockProtocol.Dir>, meta: Meta, w: World, p: Agent, x: PruneStep)
    requires SafetyInv(gcroots, meta, w) && p.Pruner? && CanPrune(gcroots, w, p, x)
    ensures var w' := DoPrune(gcroots, w, p, x);
            && w'.markers == w.markers && w'.writers == w.writers
            && Faithful(meta, w'.disk) && Faithful(meta, w'.saved) && AllFit(w'.disk)
  {
    if x.ScanAndSave? {
      assert SweepSafe(meta, w, p);
      AfterScan(gcroots, meta, w, p, w.pruners[p].stage.roots);
    }
  }

  lemma NarsKeptByPrune(gcroots: set<LockProtocol.Dir>, meta: Meta, w: World, p: Agent, x: PruneStep)
    requires SafetyInv(gcroots, meta, w) && p.Pruner? && CanPrune(gcroots, w, p, x)
    ensures var w' := DoPrune(gcroots, w, p, x);
            w'.archivesOk ==> NarsPresent(w'.disk, w'.nars)
  {
    if x.RemoveNar? && w.archivesOk {
      assert SweepSafe(meta, w, p);
      ArchiveNotKept(meta, w.disk, w.pruners[p].stage.keep, x.n);
    }
  }

  lemma RefsKeptByPrune(gcroots: set<LockProtocol.Dir>, meta: Meta, w: World, p: Agent, x: PruneStep)
    requires SafetyInv(gcroots, meta, w) && p.Pruner? && CanPrune(gcroots, w, p, x)
    ensures var w' := DoPrune(gcroots, w, p, x);
            MarkersIn(meta, w'.markers, w'.disk.Keys) && (w'.tidy ==> RefsWithin(w'.disk))
  {
    if x.RemoveInfo? {
      InfoRemoved(gcroots, meta, w, p, x.h);
    } else if x.EndInfos? {
      assert SweepSafe(meta, w, p);
      assert w.disk.Keys <= w.pruners[p].stage.keep.Keys ==> w.disk == w.pruners[p].stage.keep;
    }
  }

  lemma SafetyKeptByPrune(gcroots: set<LockProtocol.Dir>, meta: Meta, w: World, p: Agent, x: PruneStep, w': World)
    requires ProcInv(gcroots, w) && SafetyInv(gcroots, meta, w) && p.Pruner? && CanPrune(gcroots, w, p, x)
    requires w' == DoPrune(gcroots, w, p, x) && NoNewcomers(w, Prunes(p, x), w')
    ensures SafetyInv(gcroots, meta, w')
  {
    FaithKeptByPrune(gcroots, meta, w, p, x);
    NarsKeptByPrune(gcroots, meta, w, p, x);
    RefsKeptByPrune(gcroots, meta, w, p, x);
    PruneLocksAfter(gcroots, w, p, x);
    if ActivePruner(w, p) {
      PrunerIsAlone(gcroots, w, p);
    }
    forall a | ActiveWriter(w', a) ensures CopySafe(w', a) {
      assert ActiveWriter(w, a) && CopySafe(w, a);
    }
    forall q | ActivePruner(w', q) ensures SweepSafe(meta, w', q) {
      if q == p {
        PrunerKept(gcroots, meta, w, p, x);
      } else {
        assert ActivePruner(w, q) && SweepSafe(meta, w, q);
      }
    }
  }

  // ----- The rest -----

  lemma SafetyFramed(gcroots: set<LockProtocol.Dir>, meta: Meta, w: World, x: Action, w': World)
    requires SafetyInv(gcroots, meta, w) && NoNewcomers(w, x, w') && !x.Writes? && !x.Prunes?
    requires exists locks, markers :: w' == w.(locks := locks, markers := markers)
    requires forall m :: m in w'.markers ==> m in w.markers && w'.markers[m] == w.markers[m]
    ensures SafetyInv(gcroots, meta, w')
  {
    assert w'.markers.Values <= w.markers.Values;
    ReachMonotone(Needs(meta), w'.markers.Values, Needs(meta), w.markers.Values);
    forall a | ActiveWriter(w', a) ensures CopySafe(w', a) {
      assert ActiveWriter(w, a) && CopySafe(w, a);
    }
    forall p | ActivePruner(w', p) ensures SweepSafe(meta, w', p) {
      assert ActivePruner(w, p) && SweepSafe(meta, w, p);
    }
  }

  lemma SafetyKept(gcroots: set<LockProtocol.Dir>, meta: Meta, w: World, x: Action)
    requires ProcInv(gcroots, w) && SafetyInv(gcroots, meta, w) && Can(gcroots, w, x)
    requires x.Writes? && x.write.Start? ==> Faithful(meta, x.write.plan)
    ensures SafetyInv(gcroots, meta, Do(gcroots, w, x))
  {
    NewcomersOnly(gcroots, w, x);
    match x
    case Writes(a, step) => SafetyKeptByWrite(gcroots, meta, w, a, step, Do(gcroots, w, x));
    case Prunes(p, step) => SafetyKeptByPrune(gcroots, meta, w, p, step, Do(gcroots, w, x));
    case _ => SafetyFramed(gcroots, meta, w, x, Do(gcroots, w, x));
  }
}
