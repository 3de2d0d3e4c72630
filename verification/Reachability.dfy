/** Reachability in a graph of store hashes, the notion of closure every other module uses. */
module Reachability {
  import opened StoreHashes

  type Edges = StoreHash -> set<StoreHash>

  ghost predicate ReachIn(next: Edges, roots: set<StoreHash>, h: StoreHash, n: nat)
    decreases n
  {
    if n == 0 then h in roots
    else exists g :: ReachIn(next, roots, g, n - 1) && h in next(g)
  }

  ghost predicate Reach(next: Edges, roots: set<StoreHash>, h: StoreHash) {
    exists n: nat :: ReachIn(next, roots, h, n)
  }

  ghost predicate Closed(next: Edges, s: iset<StoreHash>) {
    forall g, h :: g in s && h in next(g) ==> h in s
  }

  lemma ReachRoot(next: Edges, roots: set<StoreHash>, h: StoreHash)
    requires h in roots
    ensures Reach(next, roots, h)
  {
    assert ReachIn(next, roots, h, 0);
  }

  lemma ReachStep(next: Edges, roots: set<StoreHash>, g: StoreHash, h: StoreHash)
    requires Reach(next, roots, g) && h in next(g)
    ensures Reach(next, roots, h)
  {
    var n: nat :| ReachIn(next, roots, g, n);
    assert ReachIn(next, roots, h, n + 1);
  }

  /** The reachable set is the least closed set holding the roots. */
  lemma ReachLeast(next: Edges, roots: set<StoreHash>, s: iset<StoreHash>)
    requires forall h :: h in roots ==> h in s
    requires Closed(next, s)
    ensures forall h :: Reach(next, roots, h) ==> h in s
  {
    forall h | Reach(next, roots, h) ensures h in s {
      var n: nat :| ReachIn(next, roots, h, n);
      ReachInLeast(next, roots, s, h, n);
    }
  }

  lemma {:induction false} ReachInLeast(next: Edges, roots: set<StoreHash>, s: iset<StoreHash>, h: StoreHash, n: nat)
    requires forall h :: h in roots ==> h in s
    requires Closed(next, s)
    requires ReachIn(next, roots, h, n)
    ensures h in s
    decreases n
  {
    if n == 0 {
    } else {
      var g :| ReachIn(next, roots, g, n - 1) && h in next(g);
      ReachInLeast(next, roots, s, g, n - 1);
    }
  }

  /** More roots and more edges (where they start from something reachable) reach more. */
  lemma ReachMonotone(next: Edges, roots: set<StoreHash>, next': Edges, roots': set<StoreHash>)
    requires roots <= roots'
    requires forall g :: Reach(next, roots, g) ==> next(g) <= next'(g)
    ensures forall h :: Reach(next, roots, h) ==> Reach(next', roots', h)
  {
    var s := iset h | Reach(next, roots, h) && Reach(next', roots', h);
    forall h | h in roots ensures h in s {
      ReachRoot(next, roots, h);
      ReachRoot(next', roots', h);
    }
    forall g, h | g in s && h in next(g) ensures h in s {
      ReachStep(next, roots, g, h);
      ReachStep(next', roots', g, h);
    }
    ReachLeast(next, roots, s);
  }

  /** What the union of two root sets reaches, one of them reaches. */
  lemma ReachUnion(next: Edges, a: set<StoreHash>, b: set<StoreHash>)
    ensures forall h :: Reach(next, a + b, h) ==> Reach(next, a, h) || Reach(next, b, h)
  {
    var s := iset h | Reach(next, a, h) || Reach(next, b, h);
    forall h | h in a + b ensures h in s {
      if h in a { ReachRoot(next, a, h); } else { ReachRoot(next, b, h); }
    }
    forall g, h | g in s && h in next(g) ensures h in s {
      if Reach(next, a, g) { ReachStep(next, a, g, h); } else { ReachStep(next, b, g, h); }
    }
    ReachLeast(next, a + b, s);
  }

  ghost predicate ReachFromSome(next: Edges, roots: set<StoreHash>, h: StoreHash) {
    exists r :: r in roots && Reach(next, {r}, h)
  }

  /** What a set of roots reaches, one of them reaches. */
  lemma ReachFromOne(next: Edges, roots: set<StoreHash>)
    ensures forall h :: Reach(next, roots, h) <==> ReachFromSome(next, roots, h)
  {
    var s := iset h | ReachFromSome(next, roots, h);
    forall h | h in roots ensures h in s {
      ReachRoot(next, {h}, h);
    }
    forall g, h | g in s && h in next(g) ensures h in s {
      var r :| r in roots && Reach(next, {r}, g);
      ReachStep(next, {r}, g, h);
    }
    ReachLeast(next, roots, s);
    forall r | r in roots ensures forall h :: Reach(next, {r}, h) ==> Reach(next, roots, h) {
      ReachMonotone(next, {r}, next, roots);
    }
  }

  /** A way from a root to `h`, edge by edge. */
  ghost predicate Chain(next: Edges, roots: set<StoreHash>, path: seq<StoreHash>, h: StoreHash) {
    && path != [] && path[0] in roots && path[|path| - 1] == h
    && forall i :: 0 <= i < |path| - 1 ==> path[i + 1] in next(path[i])
  }

  lemma {:induction false} ChainIsReach(next: Edges, roots: set<StoreHash>, path: seq<StoreHash>, h: StoreHash)
    requires Chain(next, roots, path, h)
    ensures Reach(next, roots, h)
    decreases |path|
  {
    if |path| == 1 {
      ReachRoot(next, roots, h);
    } else {
      var front := path[..|path| - 1];
      ChainIsReach(next, roots, front, front[|front| - 1]);
      ReachStep(next, roots, front[|front| - 1], h);
    }
  }

  lemma {:induction false} ReachInIsChain(next: Edges, roots: set<StoreHash>, h: StoreHash, n: nat) returns (path: seq<StoreHash>)
    requires ReachIn(next, roots, h, n)
    ensures Chain(next, roots, path, h)
    decreases n
  {
    if n == 0 {
      path := [h];
    } else {
      var g :| ReachIn(next, roots, g, n - 1) && h in next(g);
      var front := ReachInIsChain(next, roots, g, n - 1);
      path := front + [h];
    }
  }

  /** Reached is what a chain leads to. */
  lemma ReachByChain(next: Edges, roots: set<StoreHash>, h: StoreHash)
    ensures Reach(next, roots, h) <==> exists path :: Chain(next, roots, path, h)
  {
    if Reach(next, roots, h) {
      var n: nat :| ReachIn(next, roots, h, n);
      var path := ReachInIsChain(next, roots, h, n);
    }
    if path :| Chain(next, roots, path, h) {
      ChainIsReach(next, roots, path, h);
    }
  }
}
