/** What every run of the system keeps: active pruners are alone, the closure cache tells the
    truth, and the closure of every marker is on disk. */
module CacheSafety {
  import opened StoreHashes
  import opened NarInfos
  import opened Reachability
  import opened Closures
  import ClosureCache
  import LockProtocol
  import opened CacheProtocol

  type Agent = LockProtocol.Agent

  // ----- Exclusion -----

  /** While a pruner reads or sweeps, nobody uploads and no other pruner reads or sweeps. */
  lemma PrunerIsAlone(gcroots: set<LockProtocol.Dir>, w: World, p: Agent)
    requires ProcInv(gcroots, w) && ActivePruner(w, p)
    ensures forall a :: !ActiveWriter(w, a)
    ensures forall q :: ActivePruner(w, q) ==> q == p
  {
    assert PrunerInv(gcroots, w, p);
    forall d | d in w.pruners[p].dirs ensures IsHeld(w.locks, LockProtocol.Slot(d, p)) {
      var i :| 0 <= i < |w.pruners[p].dirs| && w.pruners[p].dirs[i] == d;
    }
    forall a | ActiveWriter(w, a) ensures false {
      assert WriterInv(gcroots, w, a);
      LockProtocol.MutualExclusion(w.locks, LockProtocol.Slot(a.dir, p), WriterSlot(a));
    }
    forall q | ActivePruner(w, q) ensures q == p {
      assert PrunerInv(gcroots, w, q);
      var d :| d in gcroots;
      var i :| 0 <= i < |w.pruners[q].dirs| && w.pruners[q].dirs[i] == d;
      assert IsHeld(w.locks, LockProtocol.Slot(d, q));
      LockProtocol.MutualExclusion(w.locks, LockProtocol.Slot(d, p), LockProtocol.Slot(d, q));
    }
  }

  /** An agent is active after a step only if it was before, or has just got all its locks. */
  ghost predicate NoNewcomers(w: World, x: Action, w': World) {
    && (forall a :: ActiveWriter(w', a) ==> ActiveWriter(w, a) || x == Writes(a, Snapshot))
    && (forall p :: ActivePruner(w', p) ==> ActivePruner(w, p) || x == Prunes(p, BeginCollect))
  }

  lemma NewcomersOnly(gcroots: set<LockProtocol.Dir>, w: World, x: Action)
    requires ProcInv(gcroots, w) && Can(gcroots, w, x)
    ensures NoNewcomers(w, x, Do(gcroots, w, x))
  {
    ActionAfter(gcroots, w, x);
    WereActive(gcroots, w, x, Do(gcroots, w, x));
  }

  lemma WereActive(gcroots: set<LockProtocol.Dir>, w: World, x: Action, w': World)
    requires StepsTo(w.locks, LockStep(w, x), w'.locks) && ProcsMove(gcroots, w, x, w')
    ensures NoNewcomers(w, x, w')
  {
    forall a | ActiveWriter(w', a) && x != Writes(a, Snapshot) ensures ActiveWriter(w, a) {
      LiveBefore(w.locks, LockStep(w, x), w'.locks, WriterSlot(a));
    }
    forall p | ActivePruner(w', p) && x != Prunes(p, BeginCollect) ensures ActivePruner(w, p) {
      assert p in w.pruners && PrunerMoves(w, x, w', p);
      forall d | d in w.pruners[p].dirs ensures LockProtocol.Live(w.locks, LockProtocol.Slot(d, p)) {
        LiveBefore(w.locks, LockStep(w, x), w'.locks, LockProtocol.Slot(d, p));
      }
    }
  }

  // ----- Coherence of the closure cache -----

  ghost predicate CopyCoherent(w: World, a: Agent)
    requires ActiveWriter(w, a)
  {
    var wr := w.writers[a];
    && wr.stage.narDone <= wr.plan.Keys && wr.stage.narDone !! wr.stage.skip
    && (w.savesOk ==> w.saved.Keys !! wr.plan.Keys - wr.stage.skip)
  }

  ghost predicate SweepCoherent(w: World, p: Agent)
    requires ActivePruner(w, p)
  {
    w.savesOk && w.pruners[p].stage.SweepInfos? ==> w.saved.Keys <= w.pruners[p].stage.keep.Keys
  }

  /** Every saved entry is the metadata of a file on disk, as long as no save has failed. */
  ghost predicate Coherent(w: World) {
    w.savesOk ==> forall h :: h in w.saved ==> h in w.disk && w.disk[h] == w.saved[h]
  }

  ghost predicate AllFit(disk: Infos) {
    forall h :: h in disk ==> ClosureCache.Fits(disk[h])
  }

  ghost predicate CoherenceInv(w: World) {
    && Coherent(w)
    && AllFit(w.disk)
    && (forall a :: ActiveWriter(w, a) ==> CopyCoherent(w, a))
    && (forall p :: ActivePruner(w, p) ==> SweepCoherent(w, p))
  }

  /** What a scan finds of a truthful cache is what is on disk, and so is what it saves. */
  lemma ScanFindsDisk(disk: Infos, saved: Infos, roots: set<StoreHash>)
    requires Truthful(disk, saved)
    ensures forall h :: h in Scan(disk, saved, roots) ==> h in disk && Scan(disk, saved, roots)[h] == disk[h]
    ensures AllFit(disk) ==> SavedForm(Scan(disk, saved, roots)) == Scan(disk, saved, roots)
  {
  }

  // ----- What the codec loses -----

  /** A first prune whose cache file the second one uses makes the second see every narinfo as
      the codec stores it: it keeps what a scan of so reduced a disk finds, whether the first
      prune has swept nothing yet or all it does not keep. */
  lemma SecondPruneSeesStored(disk: Infos, roots: set<StoreHash>)
    ensures var first := Scan(disk, map[], roots);
            && Scan(disk, SavedForm(first), roots) == Scan(SavedForm(disk), map[], roots)
            && Scan(first, SavedForm(first), roots) == Scan(SavedForm(disk), map[], roots)
  {
    StoredScan(disk, disk, roots);
    StoredScan(disk, Scan(disk, map[], roots), roots);
  }

  /** The same of any part of the disk that the first prune may have left. */
  lemma StoredScan(disk: Infos, left: Infos, roots: set<StoreHash>)
    requires forall h :: h in left ==> h in disk && left[h] == disk[h]
    requires Scan(disk, map[], roots).Keys <= left.Keys
    ensures Scan(left, SavedForm(Scan(disk, map[], roots)), roots) == Scan(SavedForm(disk), map[], roots)
  {
    var saved := SavedForm(Scan(disk, map[], roots));
    StoredReachesLess(disk, left, saved, roots);
    StoredWhereReached(disk, left, roots);
    var a, b := View(left, saved), OnDisk(SavedForm(disk));
    AgreeWhereReached(a, b, OnDisk(disk), roots);
    SameScan(left, saved, SavedForm(disk), map[], roots);
  }

  lemma StoredReachesLess(disk: Infos, left: Infos, saved: Infos, roots: set<StoreHash>)
    requires forall h :: h in left ==> h in disk && left[h] == disk[h]
    requires forall h :: h in saved ==> h in disk && saved[h] == ClosureCache.Stored(disk[h])
    ensures ReachesLess(OnDisk(SavedForm(disk)), OnDisk(disk), roots)
    ensures ReachesLess(View(left, saved), OnDisk(disk), roots)
  {
    StoredSuccessors(disk);
    FewerReachLess(OnDisk(SavedForm(disk)), OnDisk(disk), roots);
    FewerReachLess(View(left, saved), OnDisk(disk), roots);
  }

  lemma StoredWhereReached(disk: Infos, left: Infos, roots: set<StoreHash>)
    requires forall h :: h in left ==> h in disk
    requires Scan(disk, map[], roots).Keys <= left.Keys
    ensures var saved := SavedForm(Scan(disk, map[], roots));
            forall h :: Reach(ScanEdges(OnDisk(disk)), roots, h) ==> View(left, saved)(h) == OnDisk(SavedForm(disk))(h)
  {
    forall h | h in disk && Reach(ScanEdges(OnDisk(disk)), roots, h) ensures h in Scan(disk, map[], roots) {
    }
  }

  lemma StoredSuccessors(infos: Infos)
    ensures forall h :: h in infos ==> ClosureCache.Stored(infos[h]).Successors() <= infos[h].Successors()
  {
    forall h | h in infos ensures ClosureCache.Stored(infos[h]).References() <= infos[h].References() {
      var stored := ClosureCache.Stored(infos[h]);
      forall i | 0 <= i < |stored.references| ensures stored.references[i] in infos[h].References() {
        assert stored.references[i] == infos[h].references[i];
      }
    }
  }

  lemma FitIfFoundAgain(disk: Infos, roots: set<StoreHash>)
    ensures var first := Scan(disk, map[], roots);
            Scan(disk, SavedForm(first), roots) == first <==> AllFit(first)
  {
    var first := Scan(disk, map[], roots);
    if AllFit(first) {
      assert SavedForm(first) == first;
      ScanWithCache(disk, first, roots);
    } else {
      var h :| h in first && !ClosureCache.Fits(first[h]);
      ClosureCache.StoredIsIdentity(first[h]);
      assert h in Scan(disk, SavedForm(first), roots) ==> Scan(disk, SavedForm(first), roots)[h] == SavedForm(first)[h];
    }
  }

  /** So the second scan finds what the first one found if and only if all of that fits the codec. */
  lemma SecondScanIsFirst(disk: Infos, roots: set<StoreHash>)
    ensures var first := Scan(disk, map[], roots);
            && (Scan(disk, SavedForm(first), roots) == first <==> AllFit(first))
            && (Scan(first, SavedForm(first), roots) == first <==> AllFit(first))
  {
    FitIfFoundAgain(disk, roots);
    SecondPruneSeesStored(disk, roots);
  }

  /** A root with too many references: the second prune deletes `h`, which the first one kept
      for it, if and only if `h` is not among the references the codec stores. */
  lemma SecondPruneKeepsStoredRefs(r: StoreHash, info: NarInfo, h: StoreHash)
    requires h != r && h in info.Successors()
    ensures var disk: Infos := map[r := info, h := DEFAULT];
            var first := Scan(disk, map[], {r});
            h in first && (h in Scan(disk, SavedForm(first), {r}) <==> h in ClosureCache.Stored(info).Successors())
  {
    var disk: Infos := map[r := info, h := DEFAULT];
    SecondPruneSeesStored(disk, {r});
    OnlyDirect(disk, r, h);
    OnlyDirect(SavedForm(disk), r, h);
  }

  /** From `r` alone, `h` is reached if it is a direct successor. */
  lemma OnlyDirect(disk: Infos, r: StoreHash, h: StoreHash)
    requires disk.Keys == {r, h} && h != r
    ensures h in Scan(disk, map[], {r}) <==> h in disk[r].Successors()
  {
    var roots := {r};
    ScanClosed(disk, map[], roots);
    assert r in Scan(disk, map[], roots);
    if h !in disk[r].Successors() {
      ReachLeast(ScanEdges(OnDisk(disk)), roots, iset x | x == r || x in disk[r].Successors());
    }
  }

  lemma DiskCoherenceKeptByWrite(gcroots: set<LockProtocol.Dir>, w: World, a: Agent, x: WriteStep)
    requires ProcInv(gcroots, w) && CoherenceInv(w) && a.Writer? && CanWrite(gcroots, w, a, x)
    ensures var w' := DoWrite(gcroots, w, a, x);
            Coherent(w') && AllFit(w'.disk)
  {
    if a in w.writers {
      assert WriterInv(gcroots, w, a);
    }
  }

  lemma CoherenceKeptByWrite(gcroots: set<LockProtocol.Dir>, w: World, a: Agent, x: WriteStep, w': World)
    requires ProcInv(gcroots, w) && CoherenceInv(w) && a.Writer? && CanWrite(gcroots, w, a, x)
    requires w' == DoWrite(gcroots, w, a, x) && NoNewcomers(w, Writes(a, x), w')
    ensures CoherenceInv(w')
  {
    DiskCoherenceKeptByWrite(gcroots, w, a, x);
    WriteLocksAfter(gcroots, w, a, x);
    forall p | ActivePruner(w', p) ensures SweepCoherent(w', p) {
      assert ActivePruner(w, p) && SweepCoherent(w, p);
    }
    forall b | ActiveWriter(w', b) ensures CopyCoherent(w', b) {
      if x != Snapshot || b != a {
        assert ActiveWriter(w, b) && CopyCoherent(w, b);
      }
    }
  }

  lemma DiskCoherenceKeptByPrune(gcroots: set<LockProtocol.Dir>, w: World, p: Agent, x: PruneStep)
    requires CoherenceInv(w) && p.Pruner? && CanPrune(gcroots, w, p, x)
    ensures var w' := DoPrune(gcroots, w, p, x);
            Coherent(w') && AllFit(w'.disk)
  {
    if x.RemoveInfo? {
      assert SweepCoherent(w, p);
    } else if x.ScanAndSave? && w.savesOk {
      ScanFindsDisk(w.disk, w.saved, w.pruners[p].stage.roots);
    }
  }

  lemma CoherenceKeptByPrune(gcroots: set<LockProtocol.Dir>, w: World, p: Agent, x: PruneStep, w': World)
    requires ProcInv(gcroots, w) && CoherenceInv(w) && p.Pruner? && CanPrune(gcroots, w, p, x)
    requires w' == DoPrune(gcroots, w, p, x) && NoNewcomers(w, Prunes(p, x), w')
    ensures CoherenceInv(w')
  {
    DiskCoherenceKeptByPrune(gcroots, w, p, x);
    PruneLocksAfter(gcroots, w, p, x);
    if ActivePruner(w, p) {
      PrunerIsAlone(gcroots, w, p);
    }
    forall a | ActiveWriter(w', a) ensures CopyCoherent(w', a) {
      assert ActiveWriter(w, a) && CopyCoherent(w, a);
    }
    forall q | ActivePruner(w', q) ensures SweepCoherent(w', q) {
      if q != p {
        assert ActivePruner(w, q) && SweepCoherent(w, q);
      }
    }
  }

  lemma CoherenceKept(gcroots: set<LockProtocol.Dir>, w: World, x: Action)
    requires ProcInv(gcroots, w) && CoherenceInv(w) && Can(gcroots, w, x)
    ensures CoherenceInv(Do(gcroots, w, x))
  {
    NewcomersOnly(gcroots, w, x);
    match x
    case Writes(a, step) => CoherenceKeptByWrite(gcroots, w, a, step, Do(gcroots, w, x));
    case Prunes(p, step) => CoherenceKeptByPrune(gcroots, w, p, step, Do(gcroots, w, x));
    case _ => CoherenceFramed(w, x, Do(gcroots, w, x));
  }

  lemma CoherenceFramed(w: World, x: Action, w': World)
    requires CoherenceInv(w) && NoNewcomers(w, x, w') && !x.Writes? && !x.Prunes?
    requires w'.disk == w.disk && w'.saved == w.saved && w'.savesOk == w.savesOk
    requires w'.writers == w.writers && w'.pruners == w.pruners
    ensures CoherenceInv(w')
  {
    forall a | ActiveWriter(w', a) ensures CopyCoherent(w', a) {
      assert ActiveWriter(w, a) && CopyCoherent(w, a);
    }
    forall p | ActivePruner(w', p) ensures SweepCoherent(w', p) {
      assert ActivePruner(w, p) && SweepCoherent(w, p);
    }
  }
}
