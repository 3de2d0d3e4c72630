/** The main results, over whole runs of the system. */
module CacheRuns {
  import opened StoreHashes
  import opened Reachability
  import opened Closures
  import LockProtocol
  import opened CacheProtocol
  import opened CacheSafety
  import opened MarkerSafety
  import opened MarkerArchives

  type Dir = LockProtocol.Dir

  /** Nobody is at work; lock files may have been left behind. */
  ghost predicate Init(gcroots: set<Dir>, w: World) {
    && gcroots != {}
    && LockProtocol.Init(w.locks) && w.writers == map[] && w.pruners == map[]
  }

  /** `ws` are the states a run goes through, `xs` the actions between them. */
  ghost predicate Run(gcroots: set<Dir>, ws: seq<World>, xs: seq<Action>) {
    && |ws| == |xs| + 1 && Init(gcroots, ws[0])
    && forall i :: 0 <= i < |xs| ==> Can(gcroots, ws[i], xs[i]) && ws[i + 1] == Do(gcroots, ws[i], xs[i])
  }

  lemma {:induction false} ProcsInRun(gcroots: set<Dir>, ws: seq<World>, xs: seq<Action>, i: nat)
    requires Run(gcroots, ws, xs) && i < |ws|
    ensures ProcInv(gcroots, ws[i])
    decreases i
  {
    if i == 0 {
    } else {
      ProcsInRun(gcroots, ws, xs, i - 1);
      ProcInvKept(gcroots, ws[i - 1], xs[i - 1]);
    }
  }

  // ----- Safety -----

  /** A cache the pruner has not spoilt yet. */
  ghost predicate GoodCache(gcroots: set<Dir>, w: World) {
    && (forall m :: m in w.markers ==> m.Writer? && m.dir in gcroots)
    && AllFit(w.disk) && MarkersWhole(w)
    && (w.archivesOk ==> NarsPresent(w.disk, w.nars))
    && (w.tidy ==> RefsWithin(w.disk))
  }

  /** Following references from any marker, every narinfo is there. */
  ghost predicate MarkersWhole(w: World) {
    forall h :: Reach(RefEdges(OnDisk(w.disk)), w.markers.Values, h) ==> h in w.disk
  }

  /** And so is every archive. */
  ghost predicate MarkersServed(w: World) {
    forall h :: Reach(RefEdges(OnDisk(w.disk)), w.markers.Values, h) ==> h in w.disk && NarPresent(w.disk[h], w.nars)
  }

  /** The narinfo of `g` lists `h`. */
  predicate Lists(disk: Infos, g: StoreHash, h: StoreHash) {
    g in disk && h in disk[g].references
  }

  /** From a marker, reference by reference as the narinfos list them, to `h`. */
  ghost predicate MarkerPath(w: World, path: seq<StoreHash>, h: StoreHash) {
    && path != [] && path[|path| - 1] == h
    && (exists m :: m in w.markers && w.markers[m] == path[0])
    && forall i :: 0 <= i < |path| - 1 ==> Lists(w.disk, path[i], path[i + 1])
  }

  lemma MarkerPathIsRefPath(w: World, path: seq<StoreHash>, h: StoreHash)
    ensures MarkerPath(w, path, h) <==> RefPath(OnDisk(w.disk), w.markers.Values, path, h)
  {
    forall i | 0 <= i < |path| - 1 ensures Lists(w.disk, path[i], path[i + 1]) <==> RefersTo(OnDisk(w.disk), path[i], path[i + 1]) {
    }
  }

  /** What the promise says, path by path: there is no way from a marker to a missing narinfo. */
  lemma WholeByPath(w: World)
    ensures MarkersWhole(w) <==> forall path, h :: MarkerPath(w, path, h) ==> h in w.disk
  {
    var look, roots := OnDisk(w.disk), w.markers.Values;
    forall h ensures Reach(RefEdges(look), roots, h) <==> exists path :: MarkerPath(w, path, h) {
      RefsByPath(look, roots, h);
      forall path ensures MarkerPath(w, path, h) <==> RefPath(look, roots, path, h) {
        MarkerPathIsRefPath(w, path, h);
      }
    }
  }

  /** And none to a missing archive, named as its URL ends. */
  lemma ServedByPath(w: World)
    ensures MarkersServed(w) <==>
            forall path, h :: MarkerPath(w, path, h) ==> h in w.disk && (w.disk[h].Archive().Some? ==> w.disk[h].Archive().value in w.nars)
  {
    var look, roots := OnDisk(w.disk), w.markers.Values;
    forall h ensures Reach(RefEdges(look), roots, h) <==> exists path :: MarkerPath(w, path, h) {
      RefsByPath(look, roots, h);
      forall path ensures MarkerPath(w, path, h) <==> RefPath(look, roots, path, h) {
        MarkerPathIsRefPath(w, path, h);
      }
    }
  }

  /** A store hash only ever has one metadata. */
  ghost predicate Immutable(meta: Meta, w: World, xs: seq<Action>) {
    && Faithful(meta, w.disk) && Faithful(meta, w.saved)
    && forall i :: 0 <= i < |xs| && xs[i].Writes? && xs[i].write.Start? ==> Faithful(meta, xs[i].write.plan)
  }

  lemma WholeEitherWay(meta: Meta, w: World)
    requires Faithful(meta, w.disk)
    ensures MarkersWhole(w) <==> MarkersIn(meta, w.markers, w.disk.Keys)
  {
    var next, roots := RefEdges(OnDisk(w.disk)), w.markers.Values;
    NeedsOnDisk(meta, w.disk, roots);
    if MarkersWhole(w) {
      var s := iset h | Reach(next, roots, h) && h in w.disk;
      forall h | h in roots ensures h in s {
        ReachRoot(next, roots, h);
      }
      forall g, h | g in s && h in Needs(meta)(g) ensures h in s {
        ReachStep(next, roots, g, h);
      }
      ReachLeast(Needs(meta), roots, s);
    }
  }

  lemma {:induction false} SafetyInRun(gcroots: set<Dir>, meta: Meta, ws: seq<World>, xs: seq<Action>, i: nat)
    requires Run(gcroots, ws, xs) && Immutable(meta, ws[0], xs) && GoodCache(gcroots, ws[0]) && i < |ws|
    ensures SafetyInv(gcroots, meta, ws[i])
    decreases i
  {
    if i == 0 {
      WholeEitherWay(meta, ws[0]);
    } else {
      SafetyInRun(gcroots, meta, ws, xs, i - 1);
      ProcsInRun(gcroots, ws, xs, i - 1);
      SafetyKept(gcroots, meta, ws[i - 1], xs[i - 1]);
    }
  }

  /** In every state of every run no marker has a hole in its closure, whatever the sweeps failed
      to remove; as long as no first pass has left an archive at risk, no narinfo lacks its
      archive; and while the cache is tidy no narinfo has a dangling reference. */
  lemma NoBrokenClosure(gcroots: set<Dir>, meta: Meta, ws: seq<World>, xs: seq<Action>)
    requires Run(gcroots, ws, xs) && Immutable(meta, ws[0], xs) && GoodCache(gcroots, ws[0])
    ensures forall i :: 0 <= i < |ws| ==> GoodCache(gcroots, ws[i])
    ensures forall i :: 0 <= i < |ws| && ws[i].archivesOk ==> MarkersServed(ws[i])
  {
    forall i | 0 <= i < |ws| ensures GoodCache(gcroots, ws[i]) {
      SafetyInRun(gcroots, meta, ws, xs, i);
      WholeEitherWay(meta, ws[i]);
    }
  }

  // ----- Archives -----

  lemma ServedEitherWay(meta: Meta, w: World)
    requires Faithful(meta, w.disk) && MarkersIn(meta, w.markers, w.disk.Keys)
    ensures MarkersServed(w) <==> AllServed(meta, w.markers, w.nars)
  {
    var next, roots := RefEdges(OnDisk(w.disk)), w.markers.Values;
    NeedsOnDisk(meta, w.disk, roots);
    ReachMonotone(Needs(meta), roots, next, roots);
  }

  lemma ServedNext(gcroots: set<Dir>, meta: Meta, ws: seq<World>, xs: seq<Action>, i: nat)
    requires Run(gcroots, ws, xs) && Immutable(meta, ws[0], xs) && GoodCache(gcroots, ws[0])
    requires i < |xs| && MarkersServed(ws[i])
    ensures MarkersServed(ws[i + 1]) <==> LandsServed(meta, ws[i], xs[i])
  {
    SafetyInRun(gcroots, meta, ws, xs, i);
    SafetyInRun(gcroots, meta, ws, xs, i + 1);
    ServedEitherWay(meta, ws[i]);
    ServedEitherWay(meta, ws[i + 1]);
    ServedAfter(gcroots, meta, ws[i], xs[i]);
  }

  ghost predicate ServedSoFar(ws: seq<World>, i: nat)
    requires i < |ws|
  {
    forall j :: 0 <= j <= i ==> MarkersServed(ws[j])
  }

  ghost predicate LandedServed(meta: Meta, ws: seq<World>, xs: seq<Action>, i: nat)
    requires i <= |xs| < |ws|
  {
    forall j :: 0 <= j < i ==> LandsServed(meta, ws[j], xs[j])
  }

  /** No prune ever takes an archive from a marker's closure, whatever removals have failed: all
      markers have been served so far if and only if each was when it landed. */
  lemma {:induction false} MarkersStayServed(gcroots: set<Dir>, meta: Meta, ws: seq<World>, xs: seq<Action>, i: nat)
    requires Run(gcroots, ws, xs) && Immutable(meta, ws[0], xs) && GoodCache(gcroots, ws[0]) && MarkersServed(ws[0])
    requires i < |ws|
    ensures ServedSoFar(ws, i) <==> LandedServed(meta, ws, xs, i)
    decreases i
  {
    if i == 0 {
    } else {
      MarkersStayServed(gcroots, meta, ws, xs, i - 1);
      if MarkersServed(ws[i - 1]) {
        ServedNext(gcroots, meta, ws, xs, i - 1);
      }
    }
  }

  /** If `x` lands a marker, what its writer skipped as present has its archive. */
  ghost predicate LandsOnSkipped(meta: Meta, w: World, x: Action) {
    LandsMarker(w, x) && w.writers[x.a].stage.Copying? ==> SkippedServed(meta, w, x.a)
  }

  /** And that is up to the writers alone: if and only if each lands its marker on skipped paths
      that have their archives. */
  lemma MarkersServedIfSkippedServed(gcroots: set<Dir>, meta: Meta, ws: seq<World>, xs: seq<Action>, i: nat)
    requires Run(gcroots, ws, xs) && Immutable(meta, ws[0], xs) && GoodCache(gcroots, ws[0]) && MarkersServed(ws[0])
    requires i < |ws|
    ensures ServedSoFar(ws, i) <==> forall j :: 0 <= j < i ==> LandsOnSkipped(meta, ws[j], xs[j])
  {
    MarkersStayServed(gcroots, meta, ws, xs, i);
    forall j | 0 <= j < i ensures LandsServed(meta, ws[j], xs[j]) <==> LandsOnSkipped(meta, ws[j], xs[j]) {
      SafetyInRun(gcroots, meta, ws, xs, j);
      ProcsInRun(gcroots, ws, xs, j);
      assert Can(gcroots, ws[j], xs[j]);
      if LandsMarker(ws[j], xs[j]) {
        LandsServedIfSkippedServed(gcroots, meta, ws[j], xs[j].a);
      }
    }
  }

  /** The marker of job `m` points at `root`, and what that needs is there. */
  ghost predicate Serves(meta: Meta, w: World, m: Agent, root: StoreHash) {
    m in w.markers && w.markers[m] == root && RootServed(meta, root, w.nars)
  }

  lemma ServesNext(gcroots: set<Dir>, meta: Meta, ws: seq<World>, xs: seq<Action>, i: nat, m: Agent, root: StoreHash)
    requires Run(gcroots, ws, xs) && Immutable(meta, ws[0], xs) && GoodCache(gcroots, ws[0])
    requires i < |xs| && Serves(meta, ws[i], m, root) && m in ws[i + 1].markers && xs[i] != Writes(m, PutMarker)
    ensures Serves(meta, ws[i + 1], m, root)
  {
    SafetyInRun(gcroots, meta, ws, xs, i);
    MarkerStaysServed(gcroots, meta, ws[i], xs[i], ws[i + 1], m);
  }

  /** Each marker by itself: from any state in which it is served it stays served until it is
      replaced or dropped, whatever becomes of the others. */
  lemma {:induction false} ServedMarkerStays(gcroots: set<Dir>, meta: Meta, ws: seq<World>, xs: seq<Action>,
                                             i: nat, j: nat, m: Agent, root: StoreHash)
    requires Run(gcroots, ws, xs) && Immutable(meta, ws[0], xs) && GoodCache(gcroots, ws[0])
    requires i <= j < |ws| && Serves(meta, ws[i], m, root)
    requires forall k :: i < k <= j ==> m in ws[k].markers
    requires forall k :: i <= k < j ==> xs[k] != Writes(m, PutMarker)
    ensures Serves(meta, ws[j], m, root)
    decreases j
  {
    if i == j {
    } else {
      ServedMarkerStays(gcroots, meta, ws, xs, i, j - 1, m, root);
      ServesNext(gcroots, meta, ws, xs, j - 1, m, root);
    }
  }

  predicate EndsFirstPass(w: World, x: Action) {
    x.Prunes? && x.prune.EndInfos? && x.p in w.pruners && w.pruners[x.p].stage.SweepInfos?
  }

  /** If `x` ends a first pass: every narinfo that pass failed to remove has no archive or shares
      it with a kept one. */
  predicate PassLeavesShared(w: World, x: Action) {
    EndsFirstPass(w, x) ==> LeftoversShare(w.disk, w.pruners[x.p].stage.keep)
  }

  lemma FlagsKeptByWrite(gcroots: set<Dir>, w: World, a: Agent, x: WriteStep)
    requires a.Writer? && CanWrite(gcroots, w, a, x)
    ensures DoWrite(gcroots, w, a, x).tidy == w.tidy && DoWrite(gcroots, w, a, x).archivesOk == w.archivesOk
  {
  }

  lemma ArchivesOkAfterPrune(gcroots: set<Dir>, w: World, p: Agent, x: PruneStep)
    requires p.Pruner? && CanPrune(gcroots, w, p, x)
    ensures DoPrune(gcroots, w, p, x).archivesOk <==> w.archivesOk && PassLeavesShared(w, Prunes(p, x))
  {
  }

  lemma ArchivesOkAfter(gcroots: set<Dir>, w: World, x: Action)
    requires Can(gcroots, w, x)
    ensures Do(gcroots, w, x).archivesOk <==> w.archivesOk && PassLeavesShared(w, x)
  {
    match x
    case Writes(a, step) => FlagsKeptByWrite(gcroots, w, a, step);
    case Prunes(p, step) => ArchivesOkAfterPrune(gcroots, w, p, step);
    case _ =>
  }

  /** None of the first `i` actions has ended a pass that left an archive at risk. */
  ghost predicate PassesShared(ws: seq<World>, xs: seq<Action>, i: nat)
    requires i <= |xs| < |ws|
  {
    forall j :: 0 <= j < i ==> PassLeavesShared(ws[j], xs[j])
  }

  lemma ArchivesOkNext(gcroots: set<Dir>, ws: seq<World>, xs: seq<Action>, i: nat)
    requires Run(gcroots, ws, xs) && i < |xs|
    ensures ws[i + 1].archivesOk <==> ws[i].archivesOk && PassLeavesShared(ws[i], xs[i])
  {
    ArchivesOkAfter(gcroots, ws[i], xs[i]);
  }

  lemma {:induction false} ArchivesOkInRun(gcroots: set<Dir>, ws: seq<World>, xs: seq<Action>, i: nat)
    requires Run(gcroots, ws, xs) && i < |ws| && ws[0].archivesOk
    ensures ws[i].archivesOk <==> PassesShared(ws, xs, i)
    decreases i
  {
    if i == 0 {
    } else {
      ArchivesOkInRun(gcroots, ws, xs, i - 1);
      ArchivesOkNext(gcroots, ws, xs, i - 1);
    }
  }

  /** In a run in which no first pass leaves an archive at risk, every narinfo has its archive
      in every state, and every marker's closure can be served. */
  lemma NoLostArchive(gcroots: set<Dir>, meta: Meta, ws: seq<World>, xs: seq<Action>)
    requires Run(gcroots, ws, xs) && Immutable(meta, ws[0], xs) && GoodCache(gcroots, ws[0]) && ws[0].archivesOk
    requires PassesShared(ws, xs, |xs|)
    ensures forall i :: 0 <= i < |ws| ==> NarsPresent(ws[i].disk, ws[i].nars) && MarkersServed(ws[i])
  {
    NoBrokenClosure(gcroots, meta, ws, xs);
    forall i | 0 <= i < |ws| ensures ws[i].archivesOk && GoodCache(gcroots, ws[i]) {
      ArchivesOkInRun(gcroots, ws, xs, i);
    }
  }

  lemma SecondPassRemovals(gcroots: set<Dir>, w: World, p: Agent)
    requires p.Pruner? && CanPrune(gcroots, w, p, EndInfos)
    ensures var w', keep := DoPrune(gcroots, w, p, EndInfos), w.pruners[p].stage.keep;
            && w'.disk == w.disk && w'.nars == w.nars
            && forall n :: CanPrune(gcroots, w', p, RemoveNar(n)) <==> n in w.nars && !KeptArchive(keep, n)
  {
  }

  lemma RemovalsAreSafeIfShared(meta: Meta, disk: Infos, nars: set<Bytes>, keep: Infos)
    requires Faithful(meta, disk) && Faithful(meta, keep) && NarsPresent(disk, nars)
    ensures LeftoversShare(disk, keep) <==> forall n :: n in nars && !KeptArchive(keep, n) ==> NarsPresent(disk, nars - {n})
  {
    if h :| h in disk && h !in keep && disk[h].Archive().Some? && !KeptArchive(keep, disk[h].Archive().value) {
      var n := disk[h].Archive().value;
      assert NarPresent(disk[h], nars) && !NarPresent(disk[h], nars - {n});
    } else {
      forall n | n in nars && !KeptArchive(keep, n) ensures NarsPresent(disk, nars - {n}) {
        ArchiveNotKept(meta, disk, keep, n);
      }
    }
  }

  /** And that condition is exact: a first pass that leaves an archive at risk enables a removal
      in the second that takes it from a narinfo on disk. */
  lemma SecondPassIsSafeIfShared(gcroots: set<Dir>, meta: Meta, ws: seq<World>, xs: seq<Action>, i: nat)
    requires Run(gcroots, ws, xs) && Immutable(meta, ws[0], xs) && GoodCache(gcroots, ws[0])
    requires i < |xs| && ws[i].archivesOk && EndsFirstPass(ws[i], xs[i])
    ensures PassLeavesShared(ws[i], xs[i]) <==>
            forall n :: Can(gcroots, ws[i + 1], Prunes(xs[i].p, RemoveNar(n))) ==> NarsPresent(ws[i + 1].disk, ws[i + 1].nars - {n})
  {
    var w, w', p := ws[i], ws[i + 1], xs[i].p;
    var keep := w.pruners[p].stage.keep;
    SafetyInRun(gcroots, meta, ws, xs, i);
    assert Can(gcroots, w, xs[i]);
    assert Faithful(meta, keep) by { assert SweepSafe(meta, w, p); }
    SecondPassRemovals(gcroots, w, p);
    RemovalsAreSafeIfShared(meta, w.disk, w.nars, keep);
    assert forall n :: Can(gcroots, w', Prunes(p, RemoveNar(n))) <==> CanPrune(gcroots, w', p, RemoveNar(n));
  }

  // ----- References -----

  lemma TidyKept(gcroots: set<Dir>, w: World, x: Action)
    requires Can(gcroots, w, x) && w.tidy
    requires x.Prunes? ==> !x.prune.RemoveInfo?
    ensures Do(gcroots, w, x).tidy
  {
    match x
    case Writes(a, step) => FlagsKeptByWrite(gcroots, w, a, step);
    case Prunes(p, step) => TidyKeptByPrune(gcroots, w, p, step);
    case _ =>
  }

  lemma TidyKeptByPrune(gcroots: set<Dir>, w: World, p: Agent, x: PruneStep)
    requires p.Pruner? && CanPrune(gcroots, w, p, x) && w.tidy && !x.RemoveInfo?
    ensures DoPrune(gcroots, w, p, x).tidy
  {
  }

  /** A tidy cache stays tidy until a sweep removes a narinfo. */
  lemma {:induction false} TidyUntilRemoval(gcroots: set<Dir>, ws: seq<World>, xs: seq<Action>, i: nat, j: nat)
    requires Run(gcroots, ws, xs) && i <= j < |ws| && ws[i].tidy
    requires forall k :: i <= k < j && xs[k].Prunes? ==> !xs[k].prune.RemoveInfo?
    ensures ws[j].tidy
    decreases j
  {
    if i == j {
    } else {
      TidyUntilRemoval(gcroots, ws, xs, i, j - 1);
      TidyKept(gcroots, ws[j - 1], xs[j - 1]);
    }
  }

  /** A scan of a tidy cache finds all derivers whole. */
  lemma TidyScan(w: World, p: Agent)
    requires p in w.pruners && w.pruners[p].stage.Collecting?
    requires RefsWithin(w.disk) && Truthful(w.disk, w.saved)
    ensures DeriversWhole(w.disk, Kept(w, p))
  {
    var keep := Kept(w, p);
    forall g | g in keep && keep[g].deriver.Some? && keep[g].deriver.value in w.disk
      ensures Whole(w.disk, keep[g].deriver.value)
    {
      WholeIfRefsWithin(w.disk, w.disk, keep[g].deriver.value);
    }
  }

  /** A pruner past its scan only moves forward, and keeps to what the scan found. */
  ghost predicate PastScan(w: World, p: Agent, keep: Infos, whole: bool) {
    p in w.pruners && match w.pruners[p].stage
                      case Acquiring(_) => false
                      case Collecting(_, _) => false
                      case SweepInfos(k, wh) => k == keep && wh == whole
                      case _ => true
  }

  lemma PastScanKeptByPrune(gcroots: set<Dir>, w: World, q: Agent, x: PruneStep, p: Agent, keep: Infos, whole: bool)
    requires q.Pruner? && CanPrune(gcroots, w, q, x) && PastScan(w, p, keep, whole)
    ensures PastScan(DoPrune(gcroots, w, q, x), p, keep, whole)
  {
    if p != q {
      PruneLocksAfter(gcroots, w, q, x);
    }
  }

  lemma PastScanKept(gcroots: set<Dir>, w: World, x: Action, p: Agent, keep: Infos, whole: bool)
    requires Can(gcroots, w, x) && PastScan(w, p, keep, whole)
    ensures PastScan(Do(gcroots, w, x), p, keep, whole)
  {
    match x
    case Writes(a, step) => WriteLocksAfter(gcroots, w, a, step);
    case Prunes(q, step) => PastScanKeptByPrune(gcroots, w, q, step, p, keep, whole);
    case _ =>
  }

  lemma {:induction false} PastScanInRun(gcroots: set<Dir>, ws: seq<World>, xs: seq<Action>, i: nat, j: nat,
                                         p: Agent, keep: Infos, whole: bool)
    requires Run(gcroots, ws, xs) && i <= j < |ws| && PastScan(ws[i], p, keep, whole)
    ensures PastScan(ws[j], p, keep, whole)
    decreases j
  {
    if i == j {
    } else {
      PastScanInRun(gcroots, ws, xs, i, j - 1, p, keep, whole);
      PastScanKept(gcroots, ws[j - 1], xs[j - 1], p, keep, whole);
    }
  }

  /** `p` scans at `scan`, and its first pass ends at `end` with nothing left that should go. */
  ghost predicate CompleteSweep(gcroots: set<Dir>, ws: seq<World>, xs: seq<Action>, scan: nat, end: nat, p: Agent)
    requires Run(gcroots, ws, xs)
  {
    && scan < end < |xs|
    && xs[scan].Prunes? && xs[scan].p == p && xs[scan].prune.ScanAndSave? && p in ws[scan].pruners
    && ws[scan].pruners[p].stage.Collecting?
    && xs[end] == Prunes(p, EndInfos)
    && ws[end].disk.Keys <= Kept(ws[scan], p).Keys
  }

  /** What `p`, done with the markers, finds in the scan. */
  ghost function Kept(w: World, p: Agent): Infos
    requires p in w.pruners && w.pruners[p].stage.Collecting?
  {
    Scan(w.disk, w.saved, w.pruners[p].stage.roots)
  }

  lemma ScanStep(gcroots: set<Dir>, w: World, p: Agent, saveOk: bool)
    requires p.Pruner? && CanPrune(gcroots, w, p, ScanAndSave(saveOk))
    ensures PastScan(DoPrune(gcroots, w, p, ScanAndSave(saveOk)), p, Kept(w, p), DeriversWhole(w.disk, Kept(w, p)))
  {
  }

  lemma EndStep(gcroots: set<Dir>, w: World, p: Agent, keep: Infos, whole: bool)
    requires p.Pruner? && CanPrune(gcroots, w, p, EndInfos) && PastScan(w, p, keep, whole)
    ensures w.pruners[p].stage == SweepInfos(keep, whole) && ActivePruner(w, p)
    ensures var w' := DoPrune(gcroots, w, p, EndInfos);
            w'.disk == w.disk && (w'.tidy <==> w.tidy || (whole && w.disk.Keys <= keep.Keys))
  {
  }

  /** What a pruner scans is what its first pass works with when it ends. */
  lemma ScanToEnd(gcroots: set<Dir>, ws: seq<World>, xs: seq<Action>, scan: nat, end: nat, p: Agent)
    requires Run(gcroots, ws, xs) && CompleteSweep(gcroots, ws, xs, scan, end, p)
    ensures ActivePruner(ws[scan], p)
    ensures PastScan(ws[end], p, Kept(ws[scan], p), DeriversWhole(ws[scan].disk, Kept(ws[scan], p)))
    ensures p.Pruner? && CanPrune(gcroots, ws[end], p, EndInfos) && ws[end + 1] == DoPrune(gcroots, ws[end], p, EndInfos)
  {
    var keep := Kept(ws[scan], p);
    assert Can(gcroots, ws[scan], xs[scan]) && Can(gcroots, ws[end], xs[end]);
    ScanStep(gcroots, ws[scan], p, xs[scan].prune.saveOk);
    PastScanInRun(gcroots, ws, xs, scan + 1, end, p, keep, DeriversWhole(ws[scan].disk, keep));
  }

  /** Every completed sweep of every run leaves exactly what its scan found, and leaves all
      references in place if and only if the derivers it kept were whole. */
  lemma CompletedSweepLeavesRefs(gcroots: set<Dir>, meta: Meta, ws: seq<World>, xs: seq<Action>, scan: nat, end: nat, p: Agent)
    requires Run(gcroots, ws, xs) && Immutable(meta, ws[0], xs) && GoodCache(gcroots, ws[0])
    requires CompleteSweep(gcroots, ws, xs, scan, end, p)
    ensures ws[end + 1].disk == Kept(ws[scan], p)
    ensures RefsWithin(ws[end + 1].disk) <==> DeriversWhole(ws[scan].disk, Kept(ws[scan], p))
    ensures ws[end + 1].tidy <==> RefsWithin(ws[end + 1].disk)
  {
    var keep := Kept(ws[scan], p);
    ScanToEnd(gcroots, ws, xs, scan, end, p);
    SafetyInRun(gcroots, meta, ws, xs, scan);
    ScanLeavesRefs(gcroots, meta, ws[scan], p);
    EndStep(gcroots, ws[end], p, keep, DeriversWhole(ws[scan].disk, keep));
    SafetyInRun(gcroots, meta, ws, xs, end);
    KeptAsFound(gcroots, meta, ws[end], p, keep, DeriversWhole(ws[scan].disk, keep));
  }

  lemma KeptAsFound(gcroots: set<Dir>, meta: Meta, w: World, p: Agent, keep: Infos, whole: bool)
    requires SafetyInv(gcroots, meta, w) && ActivePruner(w, p)
    requires w.pruners[p].stage == SweepInfos(keep, whole) && w.disk.Keys <= keep.Keys
    ensures w.disk == keep
  {
    assert SweepSafe(meta, w, p);
  }

  lemma ScanLeavesRefs(gcroots: set<Dir>, meta: Meta, w: World, p: Agent)
    requires SafetyInv(gcroots, meta, w) && ActivePruner(w, p) && w.pruners[p].stage.Collecting?
    ensures RefsWithin(Kept(w, p)) <==> DeriversWhole(w.disk, Kept(w, p))
  {
    var roots := w.pruners[p].stage.roots;
    assert SweepSafe(meta, w, p);
    ScanWithCache(w.disk, w.saved, roots);
    RootsAreWhole(meta, w.disk, roots);
    SweepLeavesRefs(w.disk, roots);
  }

  lemma RefsKept(gcroots: set<Dir>, meta: Meta, w: World, x: Action)
    requires SafetyInv(gcroots, meta, w) && Can(gcroots, w, x) && RefsWithin(w.disk)
    requires x.Prunes? ==> !x.prune.RemoveInfo?
    ensures RefsWithin(Do(gcroots, w, x).disk)
  {
    match x
    case Writes(a, step) => RefsKeptByWrite(gcroots, meta, w, a, step);
    case Prunes(p, step) => DiskKeptByPrune(gcroots, w, p, step);
    case _ =>
  }

  lemma RefsKeptByWrite(gcroots: set<Dir>, meta: Meta, w: World, a: Agent, x: WriteStep)
    requires SafetyInv(gcroots, meta, w) && a.Writer? && CanWrite(gcroots, w, a, x) && RefsWithin(w.disk)
    ensures RefsWithin(DoWrite(gcroots, w, a, x).disk)
  {
    if x.PutInfo? {
      var wr := w.writers[a];
      assert CopySafe(w, a);
      InfoAdded(w.disk, w.nars, x.h, wr.plan[x.h]);
    }
  }

  lemma DiskKeptByPrune(gcroots: set<Dir>, w: World, p: Agent, x: PruneStep)
    requires p.Pruner? && CanPrune(gcroots, w, p, x) && !x.RemoveInfo?
    ensures DoPrune(gcroots, w, p, x).disk == w.disk
  {
  }

  lemma RefsNext(gcroots: set<Dir>, meta: Meta, ws: seq<World>, xs: seq<Action>, i: nat)
    requires Run(gcroots, ws, xs) && Immutable(meta, ws[0], xs) && GoodCache(gcroots, ws[0])
    requires i < |xs| && RefsWithin(ws[i].disk) && (xs[i].Prunes? ==> !xs[i].prune.RemoveInfo?)
    ensures RefsWithin(ws[i + 1].disk)
  {
    SafetyInRun(gcroots, meta, ws, xs, i);
    RefsKept(gcroots, meta, ws[i], xs[i]);
  }

  /** Once all references are in place they stay so until a sweep removes a narinfo, in any run. */
  lemma {:induction false} RefsUntilRemoval(gcroots: set<Dir>, meta: Meta, ws: seq<World>, xs: seq<Action>, i: nat, j: nat)
    requires Run(gcroots, ws, xs) && Immutable(meta, ws[0], xs) && GoodCache(gcroots, ws[0])
    requires i <= j < |ws| && RefsWithin(ws[i].disk)
    requires forall k :: i <= k < j && xs[k].Prunes? ==> !xs[k].prune.RemoveInfo?
    ensures RefsWithin(ws[j].disk)
    decreases j
  {
    if i == j {
    } else {
      RefsUntilRemoval(gcroots, meta, ws, xs, i, j - 1);
      RefsNext(gcroots, meta, ws, xs, j - 1);
    }
  }

  /** A completed sweep of a tidy cache leaves all references in place, and they stay so until
      another sweep removes a narinfo. */
  lemma TidySweepLeavesRefs(gcroots: set<Dir>, meta: Meta, ws: seq<World>, xs: seq<Action>,
                            scan: nat, end: nat, later: nat, p: Agent)
    requires Run(gcroots, ws, xs) && Immutable(meta, ws[0], xs) && GoodCache(gcroots, ws[0])
    requires CompleteSweep(gcroots, ws, xs, scan, end, p) && ws[scan].tidy && end < later < |ws|
    requires forall k :: end < k < later && xs[k].Prunes? ==> !xs[k].prune.RemoveInfo?
    ensures RefsWithin(ws[later].disk)
  {
    SafetyInRun(gcroots, meta, ws, xs, scan);
    assert Can(gcroots, ws[scan], xs[scan]);
    TidyScan(ws[scan], p);
    CompletedSweepLeavesRefs(gcroots, meta, ws, xs, scan, end, p);
    RefsUntilRemoval(gcroots, meta, ws, xs, end + 1, later);
  }

  // ----- The closure cache -----

  lemma {:induction false} CoherenceInRun(gcroots: set<Dir>, ws: seq<World>, xs: seq<Action>, i: nat)
    requires Run(gcroots, ws, xs) && i < |ws|
    requires Coherent(ws[0]) && AllFit(ws[0].disk)
    ensures CoherenceInv(ws[i])
    decreases i
  {
    if i == 0 {
    } else {
      CoherenceInRun(gcroots, ws, xs, i - 1);
      ProcsInRun(gcroots, ws, xs, i - 1);
      CoherenceKept(gcroots, ws[i - 1], xs[i - 1]);
    }
  }

  /** Narinfos need not be immutable for this: as long as no save has failed, every hash in the
      saved cache is on disk with exactly the saved metadata, so every scan finds what it
      would find with an empty cache. */
  lemma SavedCacheIsCoherent(gcroots: set<Dir>, ws: seq<World>, xs: seq<Action>, i: nat)
    requires Run(gcroots, ws, xs) && i < |ws|
    requires Coherent(ws[0]) && AllFit(ws[0].disk)
    requires ws[i].savesOk
    ensures forall h :: h in ws[i].saved ==> h in ws[i].disk && ws[i].disk[h] == ws[i].saved[h]
    ensures forall roots :: Scan(ws[i].disk, ws[i].saved, roots) == Scan(ws[i].disk, map[], roots)
  {
    CoherenceInRun(gcroots, ws, xs, i);
    forall roots ensures Scan(ws[i].disk, ws[i].saved, roots) == Scan(ws[i].disk, map[], roots) {
      ScanWithCache(ws[i].disk, ws[i].saved, roots);
    }
  }

  /** A writer never uploads a hash the saved cache knows. */
  lemma UploadsAvoidCache(gcroots: set<Dir>, ws: seq<World>, xs: seq<Action>, i: nat, a: Agent, h: StoreHash)
    requires Run(gcroots, ws, xs) && i < |xs| && xs[i] == Writes(a, PutInfo(h))
    requires Coherent(ws[0]) && AllFit(ws[0].disk) && ws[i].savesOk
    ensures h !in ws[i].saved
  {
    CoherenceInRun(gcroots, ws, xs, i);
    assert Can(gcroots, ws[i], xs[i]) && CopyCoherent(ws[i], a);
  }

  // ----- Exclusion and waiting -----

  /** Between any two steps of its own, a reading or sweeping pruner finds the cache as it
      left it; markers can only vanish. */
  lemma CacheIsFrozen(gcroots: set<Dir>, ws: seq<World>, xs: seq<Action>, i: nat, p: Agent)
    requires Run(gcroots, ws, xs) && i < |xs|
    requires ActivePruner(ws[i], p) && !(xs[i].Prunes? && xs[i].p == p)
    ensures ws[i + 1].disk == ws[i].disk && ws[i + 1].nars == ws[i].nars && ws[i + 1].saved == ws[i].saved
    ensures forall m :: m in ws[i + 1].markers ==> m in ws[i].markers && ws[i + 1].markers[m] == ws[i].markers[m]
  {
    ProcsInRun(gcroots, ws, xs, i);
    PrunerIsAlone(gcroots, ws[i], p);
    assert Can(gcroots, ws[i], xs[i]);
  }

  predicate WaitsFor(w: World, p: Agent, d: Dir) {
    && p in w.pruners && p !in w.locks.crashed && w.pruners[p].stage.Acquiring?
    && w.pruners[p].stage.held < |w.pruners[p].dirs| && w.pruners[p].dirs[w.pruners[p].stage.held] == d
  }

  predicate HasAcquired(w: World, p: Agent, d: Dir) {
    p in w.pruners && HeldCount(w.pruners[p]) <= |w.pruners[p].dirs| && d in w.pruners[p].dirs[..HeldCount(w.pruners[p])]
  }

  lemma {:induction false} WaitsIncrease(gcroots: set<Dir>, w: World, ps: seq<Agent>, ds: seq<Dir>, k: nat)
    requires ProcInv(gcroots, w) && |ps| == |ds| && k < |ps|
    requires forall i :: 0 <= i < |ps| ==> WaitsFor(w, ps[i], ds[i])
    requires forall i :: 0 <= i < |ps| - 1 ==> HasAcquired(w, ps[i + 1], ds[i])
    ensures ds[0] <= ds[k]
    ensures k > 0 ==> ds[0] < ds[k]
    decreases k
  {
    if k == 0 {
    } else {
      WaitsIncrease(gcroots, w, ps, ds, k - 1);
      assert HasAcquired(w, ps[k - 1 + 1], ds[k - 1]) && WaitsFor(w, ps[k], ds[k]);
      assert PrunerInv(gcroots, w, ps[k]);
    }
  }

  /** Pruners with overlapping directory lists never wait for each other in a ring. */
  lemma NoWaitCycle(gcroots: set<Dir>, ws: seq<World>, xs: seq<Action>, i: nat, ps: seq<Agent>, ds: seq<Dir>)
    requires Run(gcroots, ws, xs) && i < |ws|
    requires 0 < |ps| == |ds|
    requires forall k :: 0 <= k < |ps| ==> WaitsFor(ws[i], ps[k], ds[k])
    requires forall k :: 0 <= k < |ps| - 1 ==> HasAcquired(ws[i], ps[k + 1], ds[k])
    ensures !HasAcquired(ws[i], ps[0], ds[|ds| - 1])
  {
    ProcsInRun(gcroots, ws, xs, i);
    WaitsIncrease(gcroots, ws[i], ps, ds, |ps| - 1);
    assert WaitsFor(ws[i], ps[0], ds[0]);
    assert PrunerInv(gcroots, ws[i], ps[0]);
  }
}
