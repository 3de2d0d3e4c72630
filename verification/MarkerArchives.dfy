/** The archives of a marker's closure: no step of anybody takes one away, so a marker is served
    from its landing on if and only if it is when it lands. */
module MarkerArchives {
  import opened Wrappers
  import opened StoreHashes
  import opened Reachability
  import LockProtocol
  import opened CacheProtocol
  import opened CacheSafety
  import opened MarkerSafety

  /** Everything `root` needs has its archive. */
  ghost predicate RootServed(meta: Meta, root: StoreHash, nars: set<Bytes>) {
    forall h :: Reach(Needs(meta), {root}, h) ==> NarPresent(meta(h), nars)
  }

  ghost predicate AllServed(meta: Meta, markers: map<Agent, StoreHash>, nars: set<Bytes>) {
    forall h :: Reach(Needs(meta), markers.Values, h) ==> NarPresent(meta(h), nars)
  }

  lemma ServedOneByOne(meta: Meta, markers: map<Agent, StoreHash>, nars: set<Bytes>)
    ensures AllServed(meta, markers, nars) <==> forall m :: m in markers ==> RootServed(meta, markers[m], nars)
  {
    ReachFromOne(Needs(meta), markers.Values);
    forall m | m in markers ensures markers[m] in markers.Values {
    }
  }

  // ----- Steps -----

  /** A removal by the second pass spares what a marker needs. */
  lemma RemovalSparesRoot(gcroots: set<LockProtocol.Dir>, meta: Meta, w: World, p: Agent, n: Bytes, m: Agent)
    requires SafetyInv(gcroots, meta, w) && p.Pruner? && CanPrune(gcroots, w, p, RemoveNar(n))
    requires m in w.markers && RootServed(meta, w.markers[m], w.nars)
    ensures RootServed(meta, w.markers[m], w.nars - {n})
  {
    assert SweepSafe(meta, w, p);
    var keep := w.pruners[p].stage.keep;
    ReachMonotone(Needs(meta), {w.markers[m]}, Needs(meta), w.markers.Values);
    forall h | Reach(Needs(meta), {w.markers[m]}, h) ensures meta(h).Archive() != Some(n) {
      assert h in keep && keep[h] == meta(h);
    }
  }

  lemma MarkersAfterPrune(gcroots: set<LockProtocol.Dir>, w: World, p: Agent, x: PruneStep)
    requires p.Pruner? && CanPrune(gcroots, w, p, x)
    ensures DoPrune(gcroots, w, p, x).markers == w.markers
  {
  }

  lemma NarsAfterPrune(gcroots: set<LockProtocol.Dir>, w: World, p: Agent, x: PruneStep)
    requires p.Pruner? && CanPrune(gcroots, w, p, x)
    ensures DoPrune(gcroots, w, p, x).nars == if x.RemoveNar? then w.nars - {x.n} else w.nars
  {
  }

  lemma NarsAfterWrite(gcroots: set<LockProtocol.Dir>, w: World, a: Agent, x: WriteStep)
    requires a.Writer? && CanWrite(gcroots, w, a, x)
    ensures w.nars <= DoWrite(gcroots, w, a, x).nars
    ensures DoWrite(gcroots, w, a, x).markers == if x.PutMarker? then w.markers[a := w.writers[a].root] else w.markers
    ensures x.PutMarker? ==> a in w.writers && DoWrite(gcroots, w, a, x).nars == w.nars
  {
  }

  /** Whatever anybody does, what a marker points at stays served. */
  lemma RootStaysServed(gcroots: set<LockProtocol.Dir>, meta: Meta, w: World, x: Action, m: Agent)
    requires SafetyInv(gcroots, meta, w) && Can(gcroots, w, x)
    requires m in w.markers && RootServed(meta, w.markers[m], w.nars)
    ensures RootServed(meta, w.markers[m], Do(gcroots, w, x).nars)
  {
    match x
    case Prunes(p, step) =>
      NarsAfterPrune(gcroots, w, p, step);
      if step.RemoveNar? {
        RemovalSparesRoot(gcroots, meta, w, p, step.n, m);
      }
    case Writes(a, step) => NarsAfterWrite(gcroots, w, a, step);
    case _ =>
  }

  predicate LandsMarker(w: World, x: Action) {
    x.Writes? && x.write.PutMarker? && x.a in w.writers
  }

  /** If `x` lands a marker, everything it needs has its archive. */
  ghost predicate LandsServed(meta: Meta, w: World, x: Action) {
    LandsMarker(w, x) ==> RootServed(meta, w.writers[x.a].root, w.nars)
  }

  lemma MarkersAfter(gcroots: set<LockProtocol.Dir>, w: World, x: Action)
    requires Can(gcroots, w, x)
    ensures LandsMarker(w, x) ==> Do(gcroots, w, x).markers == w.markers[x.a := w.writers[x.a].root] && Do(gcroots, w, x).nars == w.nars
    ensures !LandsMarker(w, x) ==>
              forall m :: m in Do(gcroots, w, x).markers ==> m in w.markers && Do(gcroots, w, x).markers[m] == w.markers[m]
  {
    match x
    case Prunes(p, step) => MarkersAfterPrune(gcroots, w, p, step);
    case Writes(a, step) => NarsAfterWrite(gcroots, w, a, step);
    case _ =>
  }

  /** A served marker that a step neither drops nor replaces is served after it. */
  lemma MarkerStaysServed(gcroots: set<LockProtocol.Dir>, meta: Meta, w: World, x: Action, w': World, m: Agent)
    requires SafetyInv(gcroots, meta, w) && Can(gcroots, w, x) && w' == Do(gcroots, w, x)
    requires m in w.markers && RootServed(meta, w.markers[m], w.nars)
    requires m in w'.markers && x != Writes(m, PutMarker)
    ensures w'.markers[m] == w.markers[m] && RootServed(meta, w'.markers[m], w'.nars)
  {
    MarkersAfter(gcroots, w, x);
    RootStaysServed(gcroots, meta, w, x, m);
  }

  /** All markers stay served through a step if and only if the one it lands, if any, is. */
  lemma ServedAfter(gcroots: set<LockProtocol.Dir>, meta: Meta, w: World, x: Action)
    requires SafetyInv(gcroots, meta, w) && Can(gcroots, w, x) && AllServed(meta, w.markers, w.nars)
    ensures AllServed(meta, Do(gcroots, w, x).markers, Do(gcroots, w, x).nars) <==> LandsServed(meta, w, x)
  {
    var w' := Do(gcroots, w, x);
    ServedOneByOne(meta, w.markers, w.nars);
    ServedOneByOne(meta, w'.markers, w'.nars);
    MarkersAfter(gcroots, w, x);
    forall m | m in w.markers ensures RootServed(meta, w.markers[m], w'.nars) {
      RootStaysServed(gcroots, meta, w, x, m);
    }
    if LandsMarker(w, x) {
      assert w'.markers[x.a] == w.writers[x.a].root;
    }
  }

  // ----- The writer's guard -----

  /** Everything the writer skipped as present, and the marker needs, has its archive. */
  ghost predicate SkippedServed(meta: Meta, w: World, a: Agent)
    requires a in w.writers && w.writers[a].stage.Copying?
  {
    forall h :: h in w.writers[a].stage.skip && Reach(Needs(meta), {w.writers[a].root}, h) ==> NarPresent(meta(h), w.nars)
  }

  /** A marker lands served if and only if what its writer skipped is: what it has uploaded has
      its archive anyway. */
  lemma LandsServedIfSkippedServed(gcroots: set<LockProtocol.Dir>, meta: Meta, w: World, a: Agent)
    requires ActiveWriter(w, a) && CanWrite(gcroots, w, a, PutMarker)
    requires ProcInv(gcroots, w) && SafetyInv(gcroots, meta, w)
    ensures LandsServed(meta, w, Writes(a, PutMarker)) <==> SkippedServed(meta, w, a)
  {
    var wr := w.writers[a];
    assert WriterInv(gcroots, w, a) && CopySafe(w, a) && Faithful(meta, wr.plan);
    ReachLeast(Needs(meta), {wr.root}, iset h | h in wr.plan);
    forall h | Reach(Needs(meta), {wr.root}, h) && h !in wr.stage.skip ensures NarPresent(meta(h), w.nars) {
      assert h in wr.plan && h in wr.stage.infoDone && h in wr.stage.narDone;
    }
  }
}
