/** `src/dep_scan.rs`: the closure scan as a transition system of one coordinator and a pool
    of workers over bounded channels. A run is any interleaving of their steps. */
module DepScan {
  import opened Wrappers
  import opened StoreHashes
  import opened NarInfos
  import opened Reachability
  import opened Closures
  import opened Sums

  /** What is found where a narinfo should be. */
  datatype File = Missing | Unreadable | Readable(info: NarInfo)

  /** The cache directory and the closure cache, neither of which changes during a scan. */
  datatype Env = Env(file: StoreHash -> File, closures: map<StoreHash, NarInfo>)

  /** What the scan makes of a hash: a cached entry needs its file to exist, any other its
      file to be readable. */
  ghost function Look(env: Env): Lookup {
    h => if h in env.closures
         then (if env.file(h).Missing? then None else Some(env.closures[h]))
         else (if env.file(h).Readable? then Some(env.file(h).info) else None)
  }

  datatype Job = Job(hash: StoreHash, cached: bool)
  datatype Answer = Answer(hash: StoreHash, info: Option<NarInfo>)

  /** A worker waits for a job, has taken one, has its answer, or has left. */
  datatype Worker = Idle | Busy(job: Job) | Ready(answer: Answer) | Exited

  /** The coordinator is in its dispatch loop, waits for an answer, or has closed the channels. */
  datatype Coordinator = Dispatching | Receiving | Finished

  datatype Pool = Pool(
    queue: seq<StoreHash>,
    seen: set<StoreHash>,
    found: seq<Entry>,
    inFlight: nat,
    nextWorker: nat,
    coord: Coordinator,
    chans: seq<seq<Job>>,
    workers: seq<Worker>,
    done: seq<Answer>)

  const CHANNEL := 4

  function HighWater(s: Pool): nat {
    |s.workers| * CHANNEL
  }

  datatype Step =
    | Send
    | Await
    | Receive
    | Finish
    | Fetch(i: nat)
    | Probe(i: nat)
    | Reply(i: nat)
    | Exit(i: nat)

  predicate Shape(s: Pool) {
    |s.workers| == |s.chans| > 0
  }

  predicate Can(s: Pool, x: Step)
    requires Shape(s)
  {
    match x
    case Send =>
      && s.coord.Dispatching? && s.inFlight < HighWater(s) && s.queue != []
      && |s.chans[s.nextWorker % |s.workers|]| < CHANNEL
    case Await => s.coord.Dispatching? && (s.inFlight >= HighWater(s) || s.queue == []) && s.inFlight > 0
    case Finish => s.coord.Dispatching? && (s.inFlight >= HighWater(s) || s.queue == []) && s.inFlight == 0
    case Receive => s.coord.Receiving? && s.done != [] && s.inFlight > 0
    case Fetch(i) => i < |s.workers| && s.workers[i].Idle? && s.chans[i] != []
    case Probe(i) => i < |s.workers| && s.workers[i].Busy?
    case Reply(i) => i < |s.workers| && s.workers[i].Ready? && |s.done| < HighWater(s)
    case Exit(i) => i < |s.workers| && s.workers[i].Idle? && s.chans[i] == [] && s.coord.Finished?
  }

  function Elements(hs: seq<StoreHash>): set<StoreHash> {
    set h | h in hs
  }

  /** `enqueue` for each hash in turn. */
  function EnqueueAll(queue: seq<StoreHash>, seen: set<StoreHash>, hs: seq<StoreHash>): (r: (seq<StoreHash>, set<StoreHash>))
    ensures r.1 == seen + Elements(hs)
    decreases |hs|
  {
    if hs == [] then (queue, seen)
    else
      assert hs == [hs[0]] + hs[1..];
      if hs[0] in seen then EnqueueAll(queue, seen, hs[1..])
      else EnqueueAll(queue + [hs[0]], seen + {hs[0]}, hs[1..])
  }

  /** References, then deriver (dep_scan.rs:128). */
  function SuccessorList(info: NarInfo): (r: seq<StoreHash>)
    ensures Elements(r) == info.Successors()
  {
    info.references + (if info.deriver.Some? then [info.deriver.value] else [])
  }

  function Ask(env: Env, job: Job): Answer {
    if job.cached then Answer(job.hash, if env.file(job.hash).Missing? then None else Some(DEFAULT))
    else Answer(job.hash, if env.file(job.hash).Readable? then Some(env.file(job.hash).info) else None)
  }

  /** A confirmed cache hit carries a placeholder; its metadata is in the closure cache. */
  function InfoOf(env: Env, a: Answer): NarInfo
    requires a.info.Some?
  {
    if a.hash in env.closures then env.closures[a.hash] else a.info.value
  }

  function Accept(env: Env, s: Pool, a: Answer): Pool {
    if a.info.None? then s
    else
      var info := InfoOf(env, a);
      var (queue, seen) := EnqueueAll(s.queue, s.seen, SuccessorList(info));
      s.(queue := queue, seen := seen, found := s.found + [(a.hash, info)])
  }

  function Do(env: Env, s: Pool, x: Step): (s': Pool)
    requires Shape(s) && Can(s, x)
    ensures Shape(s') && |s'.workers| == |s.workers|
  {
    match x
    case Send =>
      var h, i := s.queue[0], s.nextWorker % |s.workers|;
      s.(queue := s.queue[1..], inFlight := s.inFlight + 1, nextWorker := s.nextWorker + 1,
         chans := s.chans[i := s.chans[i] + [Job(h, h in env.closures)]])
    case Await => s.(coord := Receiving)
    case Finish => s.(coord := Finished)
    case Receive =>
      Accept(env, s.(coord := Dispatching, inFlight := s.inFlight - 1, done := s.done[1..]), s.done[0])
    case Fetch(i) =>
      s.(workers := s.workers[i := Busy(s.chans[i][0])], chans := s.chans[i := s.chans[i][1..]])
    case Probe(i) => s.(workers := s.workers[i := Ready(Ask(env, s.workers[i].job))])
    case Reply(i) => s.(workers := s.workers[i := Idle], done := s.done + [s.workers[i].answer])
    case Exit(i) => s.(workers := s.workers[i := Exited])
  }

  /** `scan` right after `thread::scope` has spawned `n` workers. */
  function Start(queue: seq<StoreHash>, n: nat): (s: Pool)
    requires n > 0
    ensures Shape(s)
  {
    Pool(queue, Elements(queue), [], 0, 0, Dispatching, seq(n, i => []), seq(n, i => Idle), [])
  }

  predicate Terminal(s: Pool) {
    s.coord.Finished? && forall i :: 0 <= i < |s.workers| ==> s.workers[i].Exited?
  }

  // ----- Where the hashes are -----

  ghost function One(h: StoreHash): StoreHash -> nat { g => if g == h then 1 else 0 }
  ghost function InJob(h: StoreHash): Job -> nat { (j: Job) => if j.hash == h then 1 else 0 }
  ghost function InChan(h: StoreHash): seq<Job> -> nat { c => Sum(c, InJob(h)) }
  ghost function InAnswer(h: StoreHash): Answer -> nat { (a: Answer) => if a.hash == h then 1 else 0 }
  ghost function InHand(h: StoreHash): Worker -> nat {
    (w: Worker) => if (w.Busy? && w.job.hash == h) || (w.Ready? && w.answer.hash == h) then 1 else 0
  }

  /** How often a hash is queued or under way. */
  ghost function Pending(s: Pool, h: StoreHash): nat {
    Sum(s.queue, One(h)) + Sum(s.chans, InChan(h)) + Sum(s.workers, InHand(h)) + Sum(s.done, InAnswer(h))
  }

  ghost function Backlog(c: seq<Job>): nat { |c| }
  ghost function Hand(w: Worker): nat { if w.Busy? || w.Ready? then 1 else 0 }

  ghost predicate CountInv(s: Pool) {
    && Shape(s)
    && s.inFlight == Sum(s.chans, Backlog) + Sum(s.workers, Hand) + |s.done|
    && s.inFlight <= HighWater(s)
    && (s.coord.Receiving? ==> s.inFlight > 0)
    && (s.coord.Finished? ==> s.inFlight == 0 && s.queue == [])
    && (forall i :: 0 <= i < |s.workers| && s.workers[i].Exited? ==> s.coord.Finished?)
  }

  lemma CountInvKept(env: Env, s: Pool, x: Step)
    requires CountInv(s) && Can(s, x)
    ensures CountInv(Do(env, s, x))
  {
    match x
    case Send =>
      var i := s.nextWorker % |s.workers|;
      SumUpdate(s.chans, Backlog, i, s.chans[i] + [Job(s.queue[0], s.queue[0] in env.closures)]);
    case Fetch(i) =>
      SumUpdate(s.chans, Backlog, i, s.chans[i][1..]);
      SumUpdate(s.workers, Hand, i, Busy(s.chans[i][0]));
      SumAtLeast(s.chans, Backlog, i);
    case Probe(i) => SumUpdate(s.workers, Hand, i, Ready(Ask(env, s.workers[i].job)));
    case Reply(i) => SumUpdate(s.workers, Hand, i, Idle);
    case Exit(i) => SumUpdate(s.workers, Hand, i, Exited);
    case _ =>
  }

  /** The done channel holds as many answers as can be under way: no worker ever blocks on it. */
  lemma ReplyNeverBlocks(s: Pool, i: nat)
    requires CountInv(s) && i < |s.workers| && s.workers[i].Ready?
    ensures Can(s, Reply(i)) && HighWater(s) == 4 * |s.workers|
  {
    SumAtLeast(s.workers, Hand, i);
  }

  lemma SomeHand(s: Pool, i: nat)
    requires CountInv(s) && i < |s.workers| && Hand(s.workers[i]) > 0
    ensures exists x :: Can(s, x)
  {
    if s.workers[i].Ready? {
      ReplyNeverBlocks(s, i);
    } else {
      assert Can(s, Probe(i));
    }
  }

  /** No deadlock: until the scan has ended, some step is possible. */
  lemma SomeStep(s: Pool)
    requires CountInv(s) && !Terminal(s)
    ensures exists x :: Can(s, x)
  {
    if i :| 0 <= i < |s.workers| && Hand(s.workers[i]) > 0 {
      SomeHand(s, i);
    } else if s.coord.Finished? {
      var i :| 0 <= i < |s.workers| && !s.workers[i].Exited?;
      SumAtLeast(s.chans, Backlog, i);
      assert Can(s, Exit(i));
    } else if i :| 0 <= i < |s.chans| && Backlog(s.chans[i]) > 0 {
      assert s.workers[i].Idle?;
      assert Can(s, Fetch(i));
    } else {
      SumEqual(s.workers, Hand, 0);
      SumEqual(s.chans, Backlog, 0);
      assert Backlog(s.chans[s.nextWorker % |s.workers|]) == 0;
      assert Can(s, Send) || Can(s, Await) || Can(s, Finish) || Can(s, Receive);
    }
  }

  // ----- Every schedule ends -----

  ghost function WorkerWeight(w: Worker): nat {
    match w
    case Idle => 1
    case Busy(_) => 5
    case Ready(_) => 4
    case Exited => 0
  }

  ghost function CoordWeight(c: Coordinator): nat {
    match c
    case Dispatching => 2
    case Receiving => 1
    case Finished => 0
  }

  /** A hash costs less the further it has come: unseen, queued, sent, held, answered. */
  ghost function Measure(universe: set<StoreHash>, s: Pool): int {
    7 * (|universe| - |s.seen|) + 6 * |s.queue| + 5 * Sum(s.chans, Backlog) + Sum(s.workers, WorkerWeight) +
    2 * |s.done| + CoordWeight(s.coord)
  }

  /** All hashes there are, as far as a scan can see. */
  ghost predicate Universe(env: Env, universe: set<StoreHash>) {
    forall h :: h in universe && Look(env)(h).Some? ==> Look(env)(h).value.Successors() <= universe
  }

  lemma AcceptSize(env: Env, s: Pool, a: Answer)
    ensures var s' := Accept(env, s, a);
            && |s'.queue| + |s.seen| == |s.queue| + |s'.seen| && |s.seen| <= |s'.seen| && s'.inFlight == s.inFlight
            && s'.chans == s.chans && s'.workers == s.workers && s'.done == s.done && s'.coord == s.coord
  {
    if a.info.Some? {
      QueueSize(s.queue, s.seen, SuccessorList(InfoOf(env, a)));
    }
  }

  /** What the progress display subtracts (dep_scan.rs:117) is there. */
  predicate Accounted(s: Pool) {
    |s.queue| + s.inFlight <= |s.seen|
  }

  lemma AccountedKept(env: Env, s: Pool, x: Step)
    requires Shape(s) && Can(s, x) && Accounted(s)
    ensures Accounted(Do(env, s, x))
  {
    if x.Receive? {
      AcceptSize(env, s.(coord := Dispatching, inFlight := s.inFlight - 1, done := s.done[1..]), s.done[0]);
    }
  }

  lemma MeasureDrops(env: Env, universe: set<StoreHash>, s: Pool, x: Step)
    requires Shape(s) && Can(s, x)
    ensures Measure(universe, Do(env, s, x)) < Measure(universe, s)
  {
    match x
    case Send =>
      var i := s.nextWorker % |s.workers|;
      SumUpdate(s.chans, Backlog, i, s.chans[i] + [Job(s.queue[0], s.queue[0] in env.closures)]);
    case Fetch(i) =>
      SumUpdate(s.chans, Backlog, i, s.chans[i][1..]);
      SumUpdate(s.workers, WorkerWeight, i, Busy(s.chans[i][0]));
    case Probe(i) => SumUpdate(s.workers, WorkerWeight, i, Ready(Ask(env, s.workers[i].job)));
    case Reply(i) => SumUpdate(s.workers, WorkerWeight, i, Idle);
    case Exit(i) => SumUpdate(s.workers, WorkerWeight, i, Exited);
    case Receive =>
      AcceptSize(env, s.(coord := Dispatching, inFlight := s.inFlight - 1, done := s.done[1..]), s.done[0]);
    case _ =>
  }

  // ----- What the scan finds -----

  /** Jobs and answers say what the files say. */
  ghost predicate GoodJob(env: Env, j: Job) {
    j.cached == (j.hash in env.closures)
  }

  ghost predicate GoodAnswer(env: Env, a: Answer) {
    && (a.info.Some? <==> Look(env)(a.hash).Some?)
    && (a.info.Some? && a.hash !in env.closures ==> a.info == Look(env)(a.hash))
  }

  ghost predicate AnswersInv(env: Env, s: Pool) {
    && (forall i, j :: 0 <= i < |s.chans| && 0 <= j < |s.chans[i]| ==> GoodJob(env, s.chans[i][j]))
    && (forall i :: 0 <= i < |s.workers| && s.workers[i].Busy? ==> GoodJob(env, s.workers[i].job))
    && (forall i :: 0 <= i < |s.workers| && s.workers[i].Ready? ==> GoodAnswer(env, s.workers[i].answer))
    && (forall i :: 0 <= i < |s.done| ==> GoodAnswer(env, s.done[i]))
  }

  lemma AnswersInvKept(env: Env, s: Pool, x: Step)
    requires Shape(s) && AnswersInv(env, s) && Can(s, x)
    ensures AnswersInv(env, Do(env, s, x))
  {
  }

  /** What `Accept` adds for an answer is what the files say. */
  lemma AcceptedInfo(env: Env, a: Answer)
    requires GoodAnswer(env, a) && a.info.Some?
    ensures Look(env)(a.hash) == Some(InfoOf(env, a))
  {
  }

  lemma {:induction false} QueueSize(queue: seq<StoreHash>, seen: set<StoreHash>, hs: seq<StoreHash>)
    ensures var (queue', seen') := EnqueueAll(queue, seen, hs);
            |queue'| + |seen| == |queue| + |seen'| && |seen| <= |seen'|
    decreases |hs|
  {
    if hs == [] {
    } else {
      if hs[0] in seen {
        QueueSize(queue, seen, hs[1..]);
      } else {
        QueueSize(queue + [hs[0]], seen + {hs[0]}, hs[1..]);
      }
    }
  }

  lemma {:induction false} QueueOnce(queue: seq<StoreHash>, seen: set<StoreHash>, hs: seq<StoreHash>, h: StoreHash)
    ensures var (queue', seen') := EnqueueAll(queue, seen, hs);
            Sum(queue', One(h)) == Sum(queue, One(h)) + if h in seen' && h !in seen then 1 else 0
    decreases |hs|
  {
    if hs == [] {
    } else {
      if hs[0] in seen {
        QueueOnce(queue, seen, hs[1..], h);
      } else {
        QueueOnce(queue + [hs[0]], seen + {hs[0]}, hs[1..], h);
        SumSnoc(queue, One(h), hs[0]);
      }
    }
  }

  /** A hash is queued or under way at most once, and only if it has been seen. */
  ghost predicate PendingOnce(s: Pool) {
    forall h :: Pending(s, h) <= if h in s.seen then 1 else 0
  }

  lemma PendingAfterMove(env: Env, s: Pool, x: Step, h: StoreHash)
    requires Shape(s) && Can(s, x) && !x.Receive?
    ensures Pending(Do(env, s, x), h) == Pending(s, h)
  {
    match x
    case Send =>
      var i, job := s.nextWorker % |s.workers|, Job(s.queue[0], s.queue[0] in env.closures);
      SumUpdate(s.chans, InChan(h), i, s.chans[i] + [job]);
      SumSnoc(s.chans[i], InJob(h), job);
    case Fetch(i) =>
      SumUpdate(s.chans, InChan(h), i, s.chans[i][1..]);
      SumUpdate(s.workers, InHand(h), i, Busy(s.chans[i][0]));
    case Probe(i) => SumUpdate(s.workers, InHand(h), i, Ready(Ask(env, s.workers[i].job)));
    case Reply(i) =>
      SumUpdate(s.workers, InHand(h), i, Idle);
      SumSnoc(s.done, InAnswer(h), s.workers[i].answer);
    case Exit(i) => SumUpdate(s.workers, InHand(h), i, Exited);
    case _ =>
  }

  lemma PendingAfterReceive(env: Env, s: Pool)
    requires Shape(s) && Can(s, Receive)
    ensures var s' := Do(env, s, Receive);
            forall h :: Pending(s', h) + (if h == s.done[0].hash then 1 else 0) ==
                        Pending(s, h) + (if h in s'.seen && h !in s.seen then 1 else 0)
  {
    var a := s.done[0];
    if a.info.Some? {
      forall h {
        QueueOnce(s.queue, s.seen, SuccessorList(InfoOf(env, a)), h);
      }
    }
  }

  ghost function FoundHashes(s: Pool): set<StoreHash> {
    set i | 0 <= i < |s.found| :: s.found[i].0
  }

  ghost predicate EntryOk(env: Env, s: Pool, e: Entry) {
    && e.0 in s.seen && Pending(s, e.0) == 0
    && Look(env)(e.0) == Some(e.1) && e.1.Successors() <= s.seen
  }

  ghost predicate FoundInv(env: Env, roots: set<StoreHash>, s: Pool) {
    && PendingOnce(s)
    && roots <= s.seen
    && (forall h :: h in s.seen ==> Reach(ScanEdges(Look(env)), roots, h))
    && (forall i :: 0 <= i < |s.found| ==> EntryOk(env, s, s.found[i]))
    && (forall i, j :: 0 <= i < j < |s.found| ==> s.found[i].0 != s.found[j].0)
    && (forall h :: h in s.seen && Pending(s, h) == 0 && Look(env)(h).Some? ==> h in FoundHashes(s))
  }

  /** The answered hash was pending once and no longer is. */
  lemma Answered(env: Env, s: Pool)
    requires Shape(s) && Can(s, Receive) && PendingOnce(s)
    ensures var s', h := Do(env, s, Receive), s.done[0].hash;
            && h in s.seen && Pending(s, h) == 1 && Pending(s', h) == 0
            && PendingOnce(s') && s.seen <= s'.seen
            && (forall g :: g in s.seen && g != h ==> Pending(s', g) == Pending(s, g))
            && forall g :: g in s'.seen && g !in s.seen ==> Pending(s', g) == 1
  {
    PendingAfterReceive(env, s);
    assert Pending(s, s.done[0].hash) >= 1;
  }

  lemma EntriesKept(env: Env, s: Pool, s': Pool)
    requires forall i :: 0 <= i < |s.found| ==> EntryOk(env, s, s.found[i])
    requires s.seen <= s'.seen && forall h :: h in s.seen && Pending(s, h) == 0 ==> Pending(s', h) == 0
    ensures forall i :: 0 <= i < |s.found| ==> EntryOk(env, s', s.found[i])
  {
    forall i | 0 <= i < |s.found| ensures EntryOk(env, s', s.found[i]) {
      assert EntryOk(env, s, s.found[i]);
    }
  }

  lemma Accepted(env: Env, roots: set<StoreHash>, s: Pool)
    requires Shape(s) && AnswersInv(env, s) && FoundInv(env, roots, s) && Can(s, Receive) && s.done[0].info.Some?
    ensures var s', h := Do(env, s, Receive), s.done[0].hash;
            && Look(env)(h).Some?
            && s'.found == s.found + [(h, Look(env)(h).value)]
            && s'.seen == s.seen + Look(env)(h).value.Successors()
  {
    AcceptedInfo(env, s.done[0]);
  }

  lemma FoundGrows(found: seq<Entry>, e: Entry)
    ensures (set i | 0 <= i < |found + [e]| :: (found + [e])[i].0) == (set i | 0 <= i < |found| :: found[i].0) + {e.0}
  {
    var more := found + [e];
    assert forall i :: 0 <= i < |found| ==> more[i] == found[i];
    assert more[|found|] == e;
  }

  lemma FoundInvKeptByReceive(env: Env, roots: set<StoreHash>, s: Pool)
    requires Shape(s) && AnswersInv(env, s) && FoundInv(env, roots, s) && Can(s, Receive)
    ensures FoundInv(env, roots, Do(env, s, Receive))
  {
    var s', a := Do(env, s, Receive), s.done[0];
    Answered(env, s);
    EntriesKept(env, s, s');
    if a.info.Some? {
      Accepted(env, roots, s);
      Extended(env, roots, s, s', a.hash, Look(env)(a.hash).value);
    } else {
      assert FoundHashes(s') == FoundHashes(s);
    }
  }

  lemma Extended(env: Env, roots: set<StoreHash>, s: Pool, s': Pool, h: StoreHash, info: NarInfo)
    requires FoundInv(env, roots, s) && PendingOnce(s')
    requires h in s.seen && Pending(s, h) == 1 && Pending(s', h) == 0 && Look(env)(h) == Some(info)
    requires forall g :: g in s.seen && g != h ==> Pending(s', g) == Pending(s, g)
    requires forall g :: g in s'.seen && g !in s.seen ==> Pending(s', g) == 1
    requires s'.found == s.found + [(h, info)] && s'.seen == s.seen + info.Successors()
    requires forall i :: 0 <= i < |s.found| ==> EntryOk(env, s', s.found[i])
    ensures FoundInv(env, roots, s')
  {
    FoundGrows(s.found, (h, info));
    assert FoundHashes(s') == FoundHashes(s) + {h};
    forall g | g in info.Successors() ensures Reach(ScanEdges(Look(env)), roots, g) {
      ReachStep(ScanEdges(Look(env)), roots, h, g);
    }
    assert EntryOk(env, s', (h, info));
  }

  lemma FoundInvKept(env: Env, roots: set<StoreHash>, s: Pool, x: Step)
    requires Shape(s) && AnswersInv(env, s) && FoundInv(env, roots, s) && Can(s, x)
    ensures FoundInv(env, roots, Do(env, s, x))
  {
    if x.Receive? {
      FoundInvKeptByReceive(env, roots, s);
    } else {
      forall h ensures Pending(Do(env, s, x), h) == Pending(s, h) {
        PendingAfterMove(env, s, x, h);
      }
      FoundInvFramed(env, roots, s, Do(env, s, x));
    }
  }

  lemma FoundInvFramed(env: Env, roots: set<StoreHash>, s: Pool, s': Pool)
    requires FoundInv(env, roots, s) && (forall h :: Pending(s', h) == Pending(s, h)) && s'.found == s.found && s'.seen == s.seen
    ensures FoundInv(env, roots, s')
  {
    EntriesKept(env, s, s');
    assert FoundHashes(s') == FoundHashes(s);
  }

  lemma SeenInUniverse(env: Env, roots: set<StoreHash>, universe: set<StoreHash>, s: Pool)
    requires FoundInv(env, roots, s) && Universe(env, universe) && roots <= universe
    ensures s.seen <= universe
  {
    ReachLeast(ScanEdges(Look(env)), roots, iset h | h in universe);
  }

  // ----- Runs -----

  ghost predicate Inv(env: Env, roots: set<StoreHash>, s: Pool) {
    CountInv(s) && AnswersInv(env, s) && FoundInv(env, roots, s)
  }

  predicate Distinct(queue: seq<StoreHash>) {
    forall i, j :: 0 <= i < j < |queue| ==> queue[i] != queue[j]
  }

  lemma {:induction false} DistinctOnce(queue: seq<StoreHash>, h: StoreHash)
    requires Distinct(queue)
    ensures Sum(queue, One(h)) == if h in queue then 1 else 0
    decreases |queue|
  {
    if queue == [] {
    } else {
      DistinctOnce(queue[1..], h);
      assert h in queue <==> h == queue[0] || h in queue[1..];
    }
  }

  lemma {:induction false} DistinctSize(queue: seq<StoreHash>)
    requires Distinct(queue)
    ensures |Elements(queue)| == |queue|
    decreases |queue|
  {
    if queue == [] {
    } else {
      DistinctSize(queue[1..]);
      assert Elements(queue) == {queue[0]} + Elements(queue[1..]);
    }
  }

  lemma StartInv(env: Env, queue: seq<StoreHash>, n: nat)
    requires Distinct(queue) && n > 0
    ensures Inv(env, Elements(queue), Start(queue, n))
  {
    var s := Start(queue, n);
    SumEqual(s.chans, Backlog, 0);
    SumEqual(s.workers, Hand, 0);
    forall h ensures Pending(s, h) == if h in s.seen then 1 else 0 {
      DistinctOnce(queue, h);
      SumEqual(s.chans, InChan(h), 0);
      SumEqual(s.workers, InHand(h), 0);
    }
    forall h | h in s.seen ensures Reach(ScanEdges(Look(env)), s.seen, h) {
      ReachRoot(ScanEdges(Look(env)), s.seen, h);
    }
  }

  ghost predicate Run(env: Env, queue: seq<StoreHash>, n: nat, ss: seq<Pool>, xs: seq<Step>) {
    && n > 0 && |ss| == |xs| + 1 && ss[0] == Start(queue, n)
    && forall i :: 0 <= i < |xs| ==> Shape(ss[i]) && Can(ss[i], xs[i]) && ss[i + 1] == Do(env, ss[i], xs[i])
  }

  lemma {:induction false} RunInv(env: Env, queue: seq<StoreHash>, n: nat, ss: seq<Pool>, xs: seq<Step>, i: nat)
    requires Run(env, queue, n, ss, xs) && Distinct(queue) && i < |ss|
    ensures Inv(env, Elements(queue), ss[i])
    decreases i
  {
    if i == 0 {
      StartInv(env, queue, n);
    } else {
      RunInv(env, queue, n, ss, xs, i - 1);
      CountInvKept(env, ss[i - 1], xs[i - 1]);
      AnswersInvKept(env, ss[i - 1], xs[i - 1]);
      FoundInvKept(env, Elements(queue), ss[i - 1], xs[i - 1]);
    }
  }

  /** In every state of every schedule no more hashes are queued and under way than seen, so the
      count of those done never goes below zero. */
  lemma {:induction false} ProgressIsCount(env: Env, queue: seq<StoreHash>, n: nat, ss: seq<Pool>, xs: seq<Step>, i: nat)
    requires Run(env, queue, n, ss, xs) && Distinct(queue) && i < |ss|
    ensures |ss[i].queue| + ss[i].inFlight <= |ss[i].seen|
    decreases i
  {
    if i == 0 {
      DistinctSize(queue);
    } else {
      ProgressIsCount(env, queue, n, ss, xs, i - 1);
      AccountedKept(env, ss[i - 1], xs[i - 1]);
    }
  }

  lemma NothingPending(s: Pool, h: StoreHash)
    requires CountInv(s) && s.coord.Finished?
    ensures Pending(s, h) == 0
  {
    forall i | 0 <= i < |s.chans| ensures InChan(h)(s.chans[i]) == 0 {
      SumAtLeast(s.chans, Backlog, i);
    }
    forall i | 0 <= i < |s.workers| ensures InHand(h)(s.workers[i]) == 0 {
      SumAtLeast(s.workers, Hand, i);
    }
    SumEqual(s.chans, InChan(h), 0);
    SumEqual(s.workers, InHand(h), 0);
  }

  /** When nothing is under way, what was found is the closure. */
  lemma FoundIsClosure(env: Env, roots: set<StoreHash>, s: Pool)
    requires Inv(env, roots, s) && s.coord.Finished?
    ensures forall h :: h in FoundHashes(s) <==> InClosure(Look(env), roots, h)
  {
    forall h ensures Pending(s, h) == 0 {
      NothingPending(s, h);
    }
    forall g, h | g in s.seen && h in ScanEdges(Look(env))(g) ensures h in s.seen {
      assert g in FoundHashes(s);
      var i :| 0 <= i < |s.found| && s.found[i].0 == g;
      assert EntryOk(env, s, s.found[i]);
    }
    ReachLeast(ScanEdges(Look(env)), roots, iset h | h in s.seen);
    forall h | h in FoundHashes(s) ensures InClosure(Look(env), roots, h) {
      var i :| 0 <= i < |s.found| && s.found[i].0 == h;
      assert EntryOk(env, s, s.found[i]);
    }
  }

  ghost predicate IsFound(found: seq<Entry>, h: StoreHash) {
    exists i :: 0 <= i < |found| && found[i].0 == h
  }

  /** Each present root is found, and each present hash in the `references` or the `deriver` of a found
      entry; and nothing is found that is neither a root nor named so. */
  ghost predicate FollowsLists(look: Lookup, roots: set<StoreHash>, found: seq<Entry>) {
    && (forall h :: h in roots && look(h).Some? ==> IsFound(found, h))
    && (forall i, j :: 0 <= i < |found| && 0 <= j < |found[i].1.references| && look(found[i].1.references[j]).Some?
          ==> IsFound(found, found[i].1.references[j]))
    && (forall i :: 0 <= i < |found| && found[i].1.deriver.Some? && look(found[i].1.deriver.value).Some?
          ==> IsFound(found, found[i].1.deriver.value))
    && (forall i :: 0 <= i < |found| ==> found[i].0 in roots || IsNamed(found, found[i].0))
  }

  ghost predicate IsNamed(found: seq<Entry>, h: StoreHash) {
    exists i :: 0 <= i < |found| && Names(found[i].1, h)
  }

  lemma ClosureFollowsLists(look: Lookup, roots: set<StoreHash>, found: seq<Entry>)
    requires forall i :: 0 <= i < |found| ==> look(found[i].0) == Some(found[i].1)
    requires forall h :: IsFound(found, h) <==> InClosure(look, roots, h)
    ensures FollowsLists(look, roots, found)
  {
    forall h | h in roots && look(h).Some? ensures IsFound(found, h) {
      ReachRoot(ScanEdges(look), roots, h);
    }
    forall i, h | 0 <= i < |found| && Names(found[i].1, h) && look(h).Some? ensures IsFound(found, h) {
      assert IsFound(found, found[i].0);
      SuccessorsAreListed(found[i].1, h);
      ReachStep(ScanEdges(look), roots, found[i].0, h);
    }
    forall i | 0 <= i < |found| && found[i].0 !in roots ensures IsNamed(found, found[i].0) {
      assert IsFound(found, found[i].0);
      FoundByName(look, roots, found, found[i].0);
    }
  }

  lemma FoundByName(look: Lookup, roots: set<StoreHash>, found: seq<Entry>, h: StoreHash)
    requires forall i :: 0 <= i < |found| ==> look(found[i].0) == Some(found[i].1)
    requires forall g :: IsFound(found, g) <==> InClosure(look, roots, g)
    requires Reach(ScanEdges(look), roots, h) && h !in roots
    ensures IsNamed(found, h)
  {
    var n: nat :| ReachIn(ScanEdges(look), roots, h, n);
    var g :| ReachIn(ScanEdges(look), roots, g, n - 1) && h in ScanEdges(look)(g);
    assert InClosure(look, roots, g);
    var i :| 0 <= i < |found| && found[i].0 == g;
    SuccessorsAreListed(found[i].1, h);
  }

  /** Each of them once, with its metadata. */
  lemma EndOfScan(env: Env, roots: set<StoreHash>, s: Pool)
    requires Inv(env, roots, s) && s.coord.Finished?
    ensures forall i, j :: 0 <= i < j < |s.found| ==> s.found[i].0 != s.found[j].0
    ensures forall i :: 0 <= i < |s.found| ==> Look(env)(s.found[i].0) == Some(s.found[i].1)
    ensures forall h :: (exists i :: 0 <= i < |s.found| && s.found[i].0 == h) <==> InClosure(Look(env), roots, h)
    ensures FollowsLists(Look(env), roots, s.found)
  {
    FoundIsClosure(env, roots, s);
    forall i | 0 <= i < |s.found| ensures Look(env)(s.found[i].0) == Some(s.found[i].1) {
      assert EntryOk(env, s, s.found[i]);
    }
    forall h ensures (exists i :: 0 <= i < |s.found| && s.found[i].0 == h) <==> InClosure(Look(env), roots, h) {
      assert h in FoundHashes(s) <==> exists i :: 0 <= i < |s.found| && s.found[i].0 == h;
    }
    ClosureFollowsLists(Look(env), roots, s.found);
  }

  /** Whatever the schedule and however many workers: a scan that has ended has found each hash
      of the closure exactly once, with its metadata, and nothing else. */
  lemma ScanIsClosure(env: Env, queue: seq<StoreHash>, n: nat, ss: seq<Pool>, xs: seq<Step>)
    requires Run(env, queue, n, ss, xs) && Distinct(queue) && ss[|xs|].coord.Finished?
    ensures var found := ss[|xs|].found;
            && (forall i, j :: 0 <= i < j < |found| ==> found[i].0 != found[j].0)
            && (forall i :: 0 <= i < |found| ==> Look(env)(found[i].0) == Some(found[i].1))
            && (forall h :: (exists i :: 0 <= i < |found| && found[i].0 == h) <==>
                            InClosure(Look(env), Elements(queue), h))
            && FollowsLists(Look(env), Elements(queue), found)
  {
    RunInv(env, queue, n, ss, xs, |xs|);
    EndOfScan(env, Elements(queue), ss[|xs|]);
  }

  /** A run that can go no further has ended, workers and all. */
  lemma StuckIsEnded(env: Env, queue: seq<StoreHash>, n: nat, ss: seq<Pool>, xs: seq<Step>)
    requires Run(env, queue, n, ss, xs) && Distinct(queue)
    ensures Shape(ss[|xs|])
    ensures (forall x :: !Can(ss[|xs|], x)) <==> Terminal(ss[|xs|])
  {
    RunInv(env, queue, n, ss, xs, |xs|);
    if !Terminal(ss[|xs|]) {
      SomeStep(ss[|xs|]);
    }
  }

  lemma {:induction false} MeasureInRun(env: Env, queue: seq<StoreHash>, n: nat, universe: set<StoreHash>,
                                        ss: seq<Pool>, xs: seq<Step>, i: nat)
    requires Run(env, queue, n, ss, xs) && i < |ss|
    ensures Measure(universe, ss[i]) + i <= Measure(universe, ss[0])
    decreases i
  {
    if i == 0 {
    } else {
      MeasureInRun(env, queue, n, universe, ss, xs, i - 1);
      MeasureDrops(env, universe, ss[i - 1], xs[i - 1]);
    }
  }

  lemma SubsetSize(a: set<StoreHash>, b: set<StoreHash>)
    requires a <= b
    ensures |a| <= |b|
  {
    assert b == a + (b - a);
  }

  /** No schedule takes more than seven steps a hash, one a worker and two besides. */
  lemma RunsAreShort(env: Env, queue: seq<StoreHash>, n: nat, universe: set<StoreHash>, ss: seq<Pool>, xs: seq<Step>)
    requires Run(env, queue, n, ss, xs) && Distinct(queue)
    requires Universe(env, universe) && Elements(queue) <= universe
    ensures |xs| <= 7 * |universe| + n + 2
  {
    MeasureInRun(env, queue, n, universe, ss, xs, |xs|);
    RunInv(env, queue, n, ss, xs, |xs|);
    SeenInUniverse(env, Elements(queue), universe, ss[|xs|]);
    SubsetSize(ss[|xs|].seen, universe);
    var s := Start(queue, n);
    SumEqual(s.chans, Backlog, 0);
    SumEqual(s.workers, WorkerWeight, 1);
    DistinctSize(queue);
  }
}
