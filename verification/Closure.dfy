/** Closures over narinfo metadata: what a scan follows (references and deriver), and what
    a client needs (references only). */
module Closures {
  import opened Wrappers
  import opened StoreHashes
  import opened NarInfos
  import opened Reachability

  /** The metadata a scan obtains for a hash; `None` for a missing or unreadable narinfo. */
  type Lookup = StoreHash -> Option<NarInfo>

  ghost function ScanEdges(look: Lookup): Edges {
    h => if look(h).Some? then look(h).value.Successors() else {}
  }

  ghost function RefEdges(look: Lookup): Edges {
    h => if look(h).Some? then look(h).value.References() else {}
  }

  /** The specification of `DependencyScanner::scan`: reachable, and present. */
  ghost predicate InClosure(look: Lookup, roots: set<StoreHash>, h: StoreHash) {
    look(h).Some? && Reach(ScanEdges(look), roots, h)
  }

  /** The metadata of the files on disk, or the saved copy where there is one; a saved
      entry counts for nothing once its file is gone (dep_scan.rs:79-86, 126). */
  ghost function View(disk: map<StoreHash, NarInfo>, saved: map<StoreHash, NarInfo>): Lookup {
    h => if h !in disk then None else if h in saved then Some(saved[h]) else Some(disk[h])
  }

  ghost function OnDisk(disk: map<StoreHash, NarInfo>): Lookup {
    View(disk, map[])
  }

  ghost function Scan(disk: map<StoreHash, NarInfo>, saved: map<StoreHash, NarInfo>, roots: set<StoreHash>)
    : map<StoreHash, NarInfo>
  {
    map h | h in disk && InClosure(View(disk, saved), roots, h) :: View(disk, saved)(h).value
  }

  lemma SameLookupSameClosure(a: Lookup, b: Lookup, roots: set<StoreHash>)
    requires forall h :: a(h) == b(h)
    ensures forall h :: InClosure(a, roots, h) <==> InClosure(b, roots, h)
  {
    ReachMonotone(ScanEdges(a), roots, ScanEdges(b), roots);
    ReachMonotone(ScanEdges(b), roots, ScanEdges(a), roots);
  }

  ghost predicate ReachesLess(a: Lookup, b: Lookup, roots: set<StoreHash>) {
    forall h :: Reach(ScanEdges(a), roots, h) ==> Reach(ScanEdges(b), roots, h)
  }

  /** Lookups that agree wherever they lead have the same closure. */
  lemma AgreeWhereReached(a: Lookup, b: Lookup, within: Lookup, roots: set<StoreHash>)
    requires ReachesLess(a, within, roots) && ReachesLess(b, within, roots)
    requires forall h :: Reach(ScanEdges(within), roots, h) ==> a(h) == b(h)
    ensures forall h :: InClosure(a, roots, h) <==> InClosure(b, roots, h)
    ensures forall h :: InClosure(a, roots, h) ==> a(h) == b(h)
  {
    ReachMonotone(ScanEdges(a), roots, ScanEdges(b), roots);
    ReachMonotone(ScanEdges(b), roots, ScanEdges(a), roots);
  }

  lemma SameScan(disk: map<StoreHash, NarInfo>, saved: map<StoreHash, NarInfo>,
                 disk': map<StoreHash, NarInfo>, saved': map<StoreHash, NarInfo>, roots: set<StoreHash>)
    requires forall h :: InClosure(View(disk, saved), roots, h) <==> InClosure(View(disk', saved'), roots, h)
    requires forall h :: InClosure(View(disk, saved), roots, h) ==> View(disk, saved)(h) == View(disk', saved')(h)
    ensures Scan(disk, saved, roots) == Scan(disk', saved', roots)
  {
    assert forall h :: InClosure(View(disk, saved), roots, h) ==> h in disk;
    assert forall h :: InClosure(View(disk', saved'), roots, h) ==> h in disk';
  }

  /** Fewer successors reach less. */
  lemma FewerReachLess(a: Lookup, b: Lookup, roots: set<StoreHash>)
    requires forall h :: ScanEdges(a)(h) <= ScanEdges(b)(h)
    ensures ReachesLess(a, b, roots)
  {
    ReachMonotone(ScanEdges(a), roots, ScanEdges(b), roots);
  }

  /** A saved entry is never wrong about a file that exists. */
  ghost predicate Truthful(disk: map<StoreHash, NarInfo>, saved: map<StoreHash, NarInfo>) {
    forall h :: h in saved && h in disk ==> saved[h] == disk[h]
  }

  /** With a truthful cache a scan finds exactly what it finds without one. */
  lemma ScanWithCache(disk: map<StoreHash, NarInfo>, saved: map<StoreHash, NarInfo>, roots: set<StoreHash>)
    requires Truthful(disk, saved)
    ensures Scan(disk, saved, roots) == Scan(disk, map[], roots)
  {
    SameLookupSameClosure(View(disk, saved), OnDisk(disk), roots);
  }

  /** What a scan keeps is closed under references and derivers that are on disk. */
  lemma ScanClosed(disk: map<StoreHash, NarInfo>, saved: map<StoreHash, NarInfo>, roots: set<StoreHash>)
    ensures Scan(disk, saved, roots).Keys <= disk.Keys
    ensures forall h :: h in roots && h in disk ==> h in Scan(disk, saved, roots)
    ensures var keep := Scan(disk, saved, roots);
            forall g, h :: g in keep && h in keep[g].Successors() && h in disk ==> h in keep
    ensures var keep := Scan(disk, saved, roots);
            forall g, i :: g in keep && 0 <= i < |keep[g].references| && keep[g].references[i] in disk ==> keep[g].references[i] in keep
    ensures var keep := Scan(disk, saved, roots);
            forall g :: g in keep && keep[g].deriver.Some? && keep[g].deriver.value in disk ==> keep[g].deriver.value in keep
  {
    var look := View(disk, saved);
    forall h | h in roots && h in disk ensures h in Scan(disk, saved, roots) {
      ReachRoot(ScanEdges(look), roots, h);
    }
    var keep := Scan(disk, saved, roots);
    forall g, h | g in keep && h in keep[g].Successors() && h in disk ensures h in keep {
      ReachStep(ScanEdges(look), roots, g, h);
    }
    forall g, i | g in keep && 0 <= i < |keep[g].references| && keep[g].references[i] in disk
      ensures keep[g].references[i] in keep
    {
      SuccessorsAreListed(keep[g], keep[g].references[i]);
    }
  }

  // ----- Closures, entry by entry of the lists -----

  /** `info` names `h` among its references or as its deriver. */
  predicate Names(info: NarInfo, h: StoreHash) {
    h in info.references || info.deriver == Some(h)
  }

  predicate Leads(look: Lookup, g: StoreHash, h: StoreHash) {
    look(g).Some? && Names(look(g).value, h)
  }

  predicate RefersTo(look: Lookup, g: StoreHash, h: StoreHash) {
    look(g).Some? && h in look(g).value.references
  }

  /** From a root to `h`, each hash named by the metadata of the one before it. */
  ghost predicate ScanPath(look: Lookup, roots: set<StoreHash>, path: seq<StoreHash>, h: StoreHash) {
    && path != [] && path[0] in roots && path[|path| - 1] == h
    && forall i :: 0 <= i < |path| - 1 ==> Leads(look, path[i], path[i + 1])
  }

  /** The same by references alone. */
  ghost predicate RefPath(look: Lookup, roots: set<StoreHash>, path: seq<StoreHash>, h: StoreHash) {
    && path != [] && path[0] in roots && path[|path| - 1] == h
    && forall i :: 0 <= i < |path| - 1 ==> RefersTo(look, path[i], path[i + 1])
  }

  lemma LeadsIsEdge(look: Lookup, g: StoreHash, h: StoreHash)
    ensures Leads(look, g, h) <==> h in ScanEdges(look)(g)
  {
    if look(g).Some? {
      SuccessorsAreListed(look(g).value, h);
    }
  }

  lemma ScanPathIsChain(look: Lookup, roots: set<StoreHash>, path: seq<StoreHash>, h: StoreHash)
    ensures ScanPath(look, roots, path, h) <==> Chain(ScanEdges(look), roots, path, h)
  {
    forall i | 0 <= i < |path| - 1 ensures Leads(look, path[i], path[i + 1]) <==> path[i + 1] in ScanEdges(look)(path[i]) {
      LeadsIsEdge(look, path[i], path[i + 1]);
    }
  }

  lemma RefPathIsChain(look: Lookup, roots: set<StoreHash>, path: seq<StoreHash>, h: StoreHash)
    ensures RefPath(look, roots, path, h) <==> Chain(RefEdges(look), roots, path, h)
  {
    forall i | 0 <= i < |path| - 1 ensures RefersTo(look, path[i], path[i + 1]) <==> path[i + 1] in RefEdges(look)(path[i]) {
    }
  }

  /** A closure holds what is present at the end of a path. */
  lemma ClosureByPath(look: Lookup, roots: set<StoreHash>, h: StoreHash)
    ensures InClosure(look, roots, h) <==> look(h).Some? && exists path :: ScanPath(look, roots, path, h)
  {
    ReachByChain(ScanEdges(look), roots, h);
    forall path ensures ScanPath(look, roots, path, h) <==> Chain(ScanEdges(look), roots, path, h) {
      ScanPathIsChain(look, roots, path, h);
    }
  }

  lemma RefsByPath(look: Lookup, roots: set<StoreHash>, h: StoreHash)
    ensures Reach(RefEdges(look), roots, h) <==> exists path :: RefPath(look, roots, path, h)
  {
    ReachByChain(RefEdges(look), roots, h);
    forall path ensures RefPath(look, roots, path, h) <==> Chain(RefEdges(look), roots, path, h) {
      RefPathIsChain(look, roots, path, h);
    }
  }

  // ----- References left in place -----

  /** Everything `h` needs, directly or not, is on disk. */
  ghost predicate Whole(disk: map<StoreHash, NarInfo>, h: StoreHash) {
    forall x :: Reach(RefEdges(OnDisk(disk)), {h}, x) ==> x in disk
  }

  /** All references of the narinfos in `kept` are in `kept`. */
  ghost predicate RefsWithin(kept: map<StoreHash, NarInfo>) {
    forall g :: g in kept ==> kept[g].References() <= kept.Keys
  }

  /** Every deriver that a kept narinfo names and the disk has is whole. */
  ghost predicate DeriversWhole(disk: map<StoreHash, NarInfo>, keep: map<StoreHash, NarInfo>) {
    forall g :: g in keep && keep[g].deriver.Some? && keep[g].deriver.value in disk ==> Whole(disk, keep[g].deriver.value)
  }

  lemma RefsWithinListed(kept: map<StoreHash, NarInfo>)
    ensures RefsWithin(kept) <==> forall g, i :: g in kept && 0 <= i < |kept[g].references| ==> kept[g].references[i] in kept
  {
    forall g, h | g in kept ensures h in kept[g].References() <==> h in kept[g].references {
      SuccessorsAreListed(kept[g], h);
    }
  }

  lemma WholeStep(disk: map<StoreHash, NarInfo>, g: StoreHash, h: StoreHash)
    requires g in disk && Whole(disk, g) && h in disk[g].References()
    ensures h in disk && Whole(disk, h)
  {
    var next := RefEdges(OnDisk(disk));
    ReachRoot(next, {g}, g);
    ReachStep(next, {g}, g, h);
    var s := iset x | Reach(next, {g}, x);
    forall x, y | x in s && y in next(x) ensures y in s {
      ReachStep(next, {g}, x, y);
    }
    ReachLeast(next, {h}, s);
  }

  lemma WholeIfRefsWithin(disk: map<StoreHash, NarInfo>, kept: map<StoreHash, NarInfo>, h: StoreHash)
    requires RefsWithin(kept) && h in kept
    requires forall g :: g in kept ==> g in disk && disk[g] == kept[g]
    ensures Whole(disk, h)
  {
    ReachLeast(RefEdges(OnDisk(disk)), {h}, iset x | x in kept);
  }

  /** When the roots are whole, sweeping away what a scan does not keep leaves no dangling
      reference if and only if the derivers in the cache were whole. References are never
      the culprit; a deriver is, since it is kept without having been uploaded as a closure. */
  lemma SweepLeavesRefs(disk: map<StoreHash, NarInfo>, roots: set<StoreHash>)
    requires forall r :: r in roots && r in disk ==> Whole(disk, r)
    ensures var keep := Scan(disk, map[], roots);
            RefsWithin(keep) <==> DeriversWhole(disk, keep)
  {
    var keep := Scan(disk, map[], roots);
    ScanClosed(disk, map[], roots);
    if RefsWithin(keep) {
      forall g | g in keep && keep[g].deriver.Some? && keep[g].deriver.value in disk
        ensures Whole(disk, keep[g].deriver.value)
      {
        WholeIfRefsWithin(disk, keep, keep[g].deriver.value);
      }
    }
    if DeriversWhole(disk, keep) {
      KeptAreWhole(disk, roots);
      forall g, h | g in keep && h in keep[g].References() ensures h in keep {
        WholeStep(disk, g, h);
      }
    }
  }

  lemma KeptAreWhole(disk: map<StoreHash, NarInfo>, roots: set<StoreHash>)
    requires forall r :: r in roots && r in disk ==> Whole(disk, r)
    requires DeriversWhole(disk, Scan(disk, map[], roots))
    ensures forall h :: h in Scan(disk, map[], roots) ==> Whole(disk, h)
  {
    var next := ScanEdges(OnDisk(disk));
    var keep := Scan(disk, map[], roots);
    var s := iset h | Reach(next, roots, h) && (h in disk ==> Whole(disk, h));
    forall h | h in roots ensures h in s {
      ReachRoot(next, roots, h);
    }
    forall g, h | g in s && h in next(g) ensures h in s {
      ReachStep(next, roots, g, h);
      assert g in keep && keep[g] == disk[g];
      if h in disk[g].References() {
        WholeStep(disk, g, h);
      }
    }
    ReachLeast(next, roots, s);
  }
}
