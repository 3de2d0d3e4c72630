/** `DependencyScanner` in the source's own form: the coordinator's loops, with the workers
    doing whatever they like whenever the coordinator waits on a channel. */
module Scanner {
  import opened Wrappers
  import opened StoreHashes
  import opened NarInfos
  import opened Closures
  import opened DepScan

  /** The coordinator's part of the pool, which workers never touch. */
  ghost predicate SameCoordinator(s: Pool, s': Pool) {
    && s'.queue == s.queue && s'.seen == s.seen && s'.found == s.found
    && s'.inFlight == s.inFlight && s'.nextWorker == s.nextWorker && s'.coord == s.coord
    && |s'.workers| == |s.workers|
  }

  predicate WorkerStep(x: Step) {
    x.Fetch? || x.Probe? || x.Reply? || x.Exit?
  }

  /** What the coordinator waits for: room in a channel, an answer, or the workers' exit. */
  predicate Waited(s: Pool)
    requires Shape(s)
  {
    match s.coord
    case Dispatching => s.queue != [] ==> Can(s, Send) || s.inFlight >= HighWater(s)
    case Receiving => s.done != []
    case Finished => Terminal(s)
  }

  /** Until then some worker can move. */
  lemma WorkerCanMove(s: Pool)
    requires CountInv(s) && !Waited(s)
    ensures exists x :: WorkerStep(x) && Can(s, x)
  {
    if s.coord.Dispatching? {
      var i := s.nextWorker % |s.workers|;
      if s.workers[i].Idle? {
        assert Can(s, Fetch(i));
      } else if s.workers[i].Busy? {
        assert Can(s, Probe(i));
      } else {
        ReplyNeverBlocks(s, i);
      }
    } else {
      SomeStep(s);
      var x :| Can(s, x);
      assert WorkerStep(x);
    }
  }

  lemma MeasureIsNat(env: Env, roots: set<StoreHash>, universe: set<StoreHash>, s: Pool)
    requires Inv(env, roots, s) && Universe(env, universe) && roots <= universe
    ensures Measure(universe, s) >= 0
  {
    SeenInUniverse(env, roots, universe, s);
    SubsetSize(s.seen, universe);
  }

  lemma StepKeeps(env: Env, roots: set<StoreHash>, universe: set<StoreHash>, s: Pool, x: Step)
    requires Inv(env, roots, s) && Can(s, x) && Universe(env, universe) && roots <= universe
    ensures Inv(env, roots, Do(env, s, x))
    ensures 0 <= Measure(universe, Do(env, s, x)) < Measure(universe, s)
  {
    CountInvKept(env, s, x);
    AnswersInvKept(env, s, x);
    FoundInvKept(env, roots, s, x);
    MeasureDrops(env, universe, s, x);
    MeasureIsNat(env, roots, universe, Do(env, s, x));
  }

  class DependencyScanner {
    var queue: seq<StoreHash>
    var seen: set<StoreHash>

    ghost predicate Valid()
      reads this
    {
      Distinct(queue) && Elements(queue) == seen
    }

    constructor ()
      ensures Valid() && queue == []
    {
      queue, seen := [], {};
    }

    method Enqueue(hash: StoreHash)
      requires Valid()
      modifies this
      ensures Valid() && seen == old(seen) + {hash}
      ensures queue == if hash in old(seen) then old(queue) else old(queue) + [hash]
    {
      if hash !in seen {
        seen := seen + {hash};
        queue := queue + [hash];
      }
    }

    /** Any number of worker steps, enough for the coordinator to go on. */
    method LetWorkersRun(env: Env, s: Pool, ghost roots: set<StoreHash>, ghost universe: set<StoreHash>) returns (s': Pool)
      requires Inv(env, roots, s) && Universe(env, universe) && roots <= universe
      ensures Inv(env, roots, s') && SameCoordinator(s, s') && Waited(s')
      ensures 0 <= Measure(universe, s') <= Measure(universe, s)
    {
      s' := s;
      MeasureIsNat(env, roots, universe, s);
      while !Waited(s')
        invariant Inv(env, roots, s') && SameCoordinator(s, s')
        invariant 0 <= Measure(universe, s') <= Measure(universe, s)
        decreases Measure(universe, s')
      {
        WorkerCanMove(s');
        var x :| WorkerStep(x) && Can(s', x);
        StepKeeps(env, roots, universe, s', x);
        s' := Do(env, s', x);
      }
      var more: nat := *;
      while more > 0
        invariant Inv(env, roots, s') && SameCoordinator(s, s') && Waited(s')
        invariant 0 <= Measure(universe, s') <= Measure(universe, s)
      {
        more := more - 1;
        var i: nat, kind: int := *, *;
        var x := if kind == 0 then Fetch(i) else if kind == 1 then Probe(i) else if kind == 2 then Reply(i) else Exit(i);
        if Can(s', x) && Waited(Do(env, s', x)) {
          StepKeeps(env, roots, universe, s', x);
          s' := Do(env, s', x);
        }
      }
    }

    /** The dispatch loop: keep the pool saturated. */
    method Dispatch(env: Env, s: Pool, ghost roots: set<StoreHash>, ghost universe: set<StoreHash>) returns (s': Pool)
      requires Inv(env, roots, s) && Universe(env, universe) && roots <= universe && s.coord.Dispatching?
      ensures Inv(env, roots, s') && s'.coord.Dispatching? && 0 <= Measure(universe, s') <= Measure(universe, s)
      ensures s'.inFlight >= HighWater(s') || s'.queue == []
    {
      s' := s;
      MeasureIsNat(env, roots, universe, s);
      while s'.inFlight < HighWater(s') && s'.queue != []
        invariant Inv(env, roots, s') && s'.coord.Dispatching? && 0 <= Measure(universe, s') <= Measure(universe, s)
        decreases Measure(universe, s')
      {
        s' := LetWorkersRun(env, s', roots, universe);
        assert Can(s', Send);
        StepKeeps(env, roots, universe, s', Send);
        s' := Do(env, s', Send);
      }
    }

    /** Wait for one answer and take it in. */
    method TakeAnswer(env: Env, s: Pool, ghost roots: set<StoreHash>, ghost universe: set<StoreHash>) returns (s': Pool)
      requires Inv(env, roots, s) && Universe(env, universe) && roots <= universe && Can(s, Await)
      ensures Inv(env, roots, s') && s'.coord.Dispatching? && 0 <= Measure(universe, s') < Measure(universe, s)
    {
      StepKeeps(env, roots, universe, s, Await);
      s' := Do(env, s, Await);
      s' := LetWorkersRun(env, s', roots, universe);
      StepKeeps(env, roots, universe, s', Receive);
      s' := Do(env, s', Receive);
    }

    /** `scan` with `workers` workers. */
    method Scan(env: Env, workers: nat, ghost universe: set<StoreHash>) returns (found: seq<Entry>)
      requires Valid() && workers > 0
      requires Universe(env, universe) && seen <= universe
      modifies this
      ensures forall i, j :: 0 <= i < j < |found| ==> found[i].0 != found[j].0
      ensures forall i :: 0 <= i < |found| ==> Look(env)(found[i].0) == Some(found[i].1)
      ensures forall h :: (exists i :: 0 <= i < |found| && found[i].0 == h) <==> InClosure(Look(env), old(seen), h)
      ensures FollowsLists(Look(env), old(seen), found)
    {
      ghost var roots := seen;
      StartInv(env, queue, workers);
      var s := Start(queue, workers);
      MeasureIsNat(env, roots, universe, s);
      while true
        invariant Inv(env, roots, s) && s.coord.Dispatching? && Measure(universe, s) >= 0
        decreases Measure(universe, s)
      {
        s := Dispatch(env, s, roots, universe);
        if s.inFlight == 0 {
          break;
        }
        s := TakeAnswer(env, s, roots, universe);
      }
      StepKeeps(env, roots, universe, s, Finish);
      s := Do(env, s, Finish);
      s := LetWorkersRun(env, s, roots, universe);
      queue, seen, found := s.queue, s.seen, s.found;
      EndOfScan(env, roots, s);
    }
  }
}
