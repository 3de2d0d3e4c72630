/** The cooperative lock protocol of `src/lock.rs`, `src/with_lock.rs` and `nixos/lock-guard.js`
    as a transition system: any number of pruners and writers, any number of gcroots
    directories, directory reads that see one entry at a time, a clock, and a crash
    possible before every step. */
module LockProtocol {
  type Time = nat
  type Dir = nat

  // lock.rs:18, in seconds.
  const STALE_AFTER: Time := 30 * 60

  /** A lock file is named after its holder: `prune-<id>` or the job name. A writer's
      lock directory is the one its marker lies in. */
  datatype Agent = Pruner(id: nat) | Writer(dir: Dir, job: nat)

  datatype Slot = Slot(dir: Dir, agent: Agent)

  /** A directory read in progress. `todo` holds the entries that were there when the
      read began, are still there, and have not been seen: `readdir` owes us these. */
  datatype Read = Read(began: Time, todo: set<Agent>, conflict: bool)

  datatype Phase =
    | Polling(read: Read)
    | Clear                  // the poll saw no competing lock
    | Created                // our file is written, the re-check has not begun
    | Rechecking(read: Read)
    | BackingOff             // the re-check saw a competing lock
    | Held

  /** `phase` has no entry for an agent that is not at work on a directory. */
  datatype Locks = Locks(now: Time, files: map<Slot, Time>, phase: map<Slot, Phase>, crashed: set<Agent>)

  datatype Event =
    | BeginRead(slot: Slot)
    | Visit(slot: Slot, entry: Agent)
    | EndRead(slot: Slot)
    | Create(slot: Slot)
    | RemoteCreate(slot: Slot)
    | Remove(slot: Slot, ok: bool)
    | Refresh(slot: Slot)
    | Tick(dt: Time)
    | Crash(agent: Agent)
    | Restart(agent: Agent)

  function Age(at: Time, mtime: Time): Time {
    if at < mtime then 0 else at - mtime
  }

  /** Which entries count: a pruner minds every lock but its own, a writer only pruners'. */
  predicate Sees(reader: Agent, entry: Agent) {
    if reader.Pruner? then entry != reader else entry.Pruner?
  }

  /** The two freshness tests differ at exactly `STALE_AFTER`. */
  predicate SeenFresh(reader: Agent, at: Time, mtime: Time) {
    if reader.Pruner? then Age(at, mtime) <= STALE_AFTER else Age(at, mtime) < STALE_AFTER
  }

  function Present(s: Locks, d: Dir): set<Agent> {
    set k | k in s.files && k.dir == d :: k.agent
  }

  predicate Reading(p: Phase) {
    p.Polling? || p.Rechecking?
  }

  predicate WellPlaced(k: Slot) {
    k.agent.Writer? ==> k.agent.dir == k.dir
  }

  /** The lock exists, its holder has not crashed, and no observer takes it for stale. */
  predicate Live(s: Locks, k: Slot) {
    k.agent !in s.crashed && k in s.files && Age(s.now, s.files[k]) < STALE_AFTER
  }

  predicate Can(s: Locks, e: Event) {
    match e
    case BeginRead(k) => WellPlaced(k) && k.agent !in s.crashed && (k !in s.phase || s.phase[k].Created?)
    case Visit(k, n) =>
      k.agent !in s.crashed && k in s.phase && Reading(s.phase[k]) && Slot(k.dir, n) in s.files
    case EndRead(k) =>
      && k.agent !in s.crashed && k in s.phase && Reading(s.phase[k])
      && (s.phase[k].read.conflict || s.phase[k].read.todo == {})
    case Create(k) => k.agent !in s.crashed && k in s.phase && s.phase[k].Clear?
    case RemoteCreate(k) =>
      && WellPlaced(k) && k.agent.Writer? && k.agent !in s.crashed && k !in s.phase
      && forall f :: f in s.files && f.dir == k.dir && f.agent.Pruner? ==> !SeenFresh(k.agent, s.now, s.files[f])
    case Remove(k, _) => k.agent !in s.crashed && k in s.phase && (s.phase[k].BackingOff? || s.phase[k].Held?)
    case Refresh(k) => k in s.phase && s.phase[k].Held? && Live(s, k)
    case Tick(_) => true
    case Crash(_) => true
    case Restart(a) => a.Writer? && a in s.crashed
  }

  function Do(s: Locks, e: Event): Locks
    requires Can(s, e)
  {
    match e
    case BeginRead(k) =>
      var r := Read(s.now, Present(s, k.dir), false);
      s.(phase := s.phase[k := if k in s.phase then Rechecking(r) else Polling(r)])
    case Visit(k, n) =>
      var p := s.phase[k];
      var hit := Sees(k.agent, n) && SeenFresh(k.agent, p.read.began, s.files[Slot(k.dir, n)]);
      var r := p.read.(todo := p.read.todo - {n}, conflict := p.read.conflict || hit);
      s.(phase := s.phase[k := if p.Polling? then Polling(r) else Rechecking(r)])
    case EndRead(k) =>
      var p := s.phase[k];
      if p.Polling? then
        if p.read.conflict then s.(phase := s.phase - {k}) else s.(phase := s.phase[k := Clear])
      else s.(phase := s.phase[k := if p.read.conflict then BackingOff else Held])
    case Create(k) => s.(files := s.files[k := s.now], phase := s.phase[k := Created])
    case RemoteCreate(k) => s.(files := s.files[k := s.now], phase := s.phase[k := Held])
    case Remove(k, ok) =>
      if ok then s.(files := s.files - {k}, phase := Forget(s.phase - {k}, k))
      else s.(phase := s.phase - {k})
    case Refresh(k) => s.(files := s.files[k := s.now])
    case Tick(dt) => s.(now := s.now + dt)
    case Crash(a) => s.(crashed := s.crashed + {a})
    case Restart(a) => s.(crashed := s.crashed - {a}, phase := s.phase - {Slot(a.dir, a)})
  }

  /** A removed entry is no longer owed to reads in progress. */
  function Forget(phase: map<Slot, Phase>, gone: Slot): map<Slot, Phase> {
    map k | k in phase :: if k.dir == gone.dir then ForgetOne(phase[k], gone.agent) else phase[k]
  }

  function ForgetOne(p: Phase, a: Agent): Phase {
    match p
    case Polling(r) => Polling(r.(todo := r.todo - {a}))
    case Rechecking(r) => Rechecking(r.(todo := r.todo - {a}))
    case _ => p
  }

  // ----- The invariant -----

  predicate HasFile(p: Phase) {
    p.Created? || p.Rechecking? || p.BackingOff? || p.Held?
  }

  ghost predicate FilesInv(s: Locks) {
    && (forall k :: k in s.files ==> s.files[k] <= s.now)
    && (forall k :: k in s.phase ==> WellPlaced(k))
    && (forall k :: k in s.phase && k.agent !in s.crashed && HasFile(s.phase[k]) ==> k in s.files)
  }

  ghost predicate ReadsInv(s: Locks) {
    forall k :: k in s.phase && Reading(s.phase[k]) ==> ReadInv(s, k.dir, s.phase[k].read)
  }

  ghost predicate ReadInv(s: Locks, d: Dir, r: Read) {
    r.began <= s.now && r.todo <= Present(s, d)
  }

  /** Past creation and, as far as it knows, without a competitor. */
  predicate Contending(s: Locks, k: Slot) {
    k in s.phase && (s.phase[k].Held? || (s.phase[k].Rechecking? && !s.phase[k].read.conflict))
  }

  /** `x`'s re-check still has to see `y`. */
  predicate Owes(s: Locks, x: Slot, y: Slot) {
    x in s.phase && s.phase[x].Rechecking? && y.agent in s.phase[x].read.todo
  }

  predicate Rivals(x: Slot, y: Slot) {
    x.dir == y.dir && x.agent != y.agent && (x.agent.Pruner? || y.agent.Pruner?)
  }

  /** Of two live rivals that both think they are alone, one has yet to see the other. */
  ghost predicate RivalsInv(s: Locks) {
    forall x, y :: Contending(s, x) && Contending(s, y) && Rivals(x, y) && Live(s, x) && Live(s, y)
      ==> Owes(s, x, y) || Owes(s, y, x)
  }

  ghost predicate Inv(s: Locks) {
    FilesInv(s) && ReadsInv(s) && RivalsInv(s)
  }

  lemma PresentAfter(s: Locks, e: Event, d: Dir, a: Agent)
    requires Can(s, e) && a in Present(s, d) && e != Remove(Slot(d, a), true)
    ensures a in Present(Do(s, e), d)
  {
    assert Slot(d, a) in Do(s, e).files;
  }

  lemma FilesInvKept(s: Locks, e: Event)
    requires FilesInv(s) && Can(s, e)
    ensures FilesInv(Do(s, e))
  {
  }

  lemma ReadsInvKept(s: Locks, e: Event)
    requires ReadsInv(s) && Can(s, e)
    ensures ReadsInv(Do(s, e))
  {
    var s' := Do(s, e);
    forall k | k in s'.phase && Reading(s'.phase[k]) ensures ReadInv(s', k.dir, s'.phase[k].read) {
      var r := s'.phase[k].read;
      if !(e.BeginRead? && e.slot == k) {
        assert k in s.phase && Reading(s.phase[k]) && r.todo <= s.phase[k].read.todo;
        forall a | a in r.todo ensures a in Present(s', k.dir) {
          PresentAfter(s, e, k.dir, a);
        }
      }
    }
  }

  lemma RivalsInvKept(s: Locks, e: Event)
    requires Inv(s) && Can(s, e)
    ensures RivalsInv(Do(s, e))
  {
    var s' := Do(s, e);
    forall x, y | Contending(s', x) && Contending(s', y) && Rivals(x, y) && Live(s', x) && Live(s', y)
      ensures Owes(s', x, y) || Owes(s', y, x)
    {
      assert x == Slot(x.dir, x.agent) && y == Slot(y.dir, y.agent);
    }
  }

  lemma InvKept(s: Locks, e: Event)
    requires Inv(s) && Can(s, e)
    ensures Inv(Do(s, e))
  {
    FilesInvKept(s, e);
    ReadsInvKept(s, e);
    RivalsInvKept(s, e);
  }

  /** `k`'s agent has its lock and may act on it. */
  predicate Holds(s: Locks, k: Slot) {
    k in s.phase && s.phase[k].Held? && Live(s, k)
  }

  /** Two live rivals never both hold a directory. */
  lemma MutualExclusion(s: Locks, x: Slot, y: Slot)
    requires Inv(s) && Holds(s, x) && Holds(s, y)
    ensures !Rivals(x, y)
  {
  }

  // ----- Runs -----

  /** Nobody is at work; lock files may have been left behind. */
  ghost predicate Init(s: Locks) {
    s.phase == map[] && forall k :: k in s.files ==> s.files[k] <= s.now
  }

  ghost predicate Run(ss: seq<Locks>, es: seq<Event>) {
    && |ss| == |es| + 1 && Init(ss[0])
    && forall i :: 0 <= i < |es| ==> Can(ss[i], es[i]) && ss[i + 1] == Do(ss[i], es[i])
  }

  lemma {:induction false} InvInRun(ss: seq<Locks>, es: seq<Event>, i: nat)
    requires Run(ss, es) && i < |ss|
    ensures Inv(ss[i])
    decreases i
  {
    if i == 0 {
    } else {
      InvInRun(ss, es, i - 1);
      InvKept(ss[i - 1], es[i - 1]);
    }
  }

  /** In no interleaving do two live pruners hold one directory, nor a live pruner and a live
      writer. */
  lemma HoldersAreNoRivals(ss: seq<Locks>, es: seq<Event>)
    requires Run(ss, es)
    ensures forall i, x, y :: 0 <= i < |ss| && Holds(ss[i], x) && Holds(ss[i], y) ==> !Rivals(x, y)
  {
    forall i, x, y | 0 <= i < |ss| && Holds(ss[i], x) && Holds(ss[i], y) ensures !Rivals(x, y) {
      InvInRun(ss, es, i);
      MutualExclusion(ss[i], x, y);
    }
  }

  /** `e` takes a run from its last state to `s`. */
  lemma RunExtends(ss: seq<Locks>, es: seq<Event>, e: Event, s: Locks) returns (ss': seq<Locks>, es': seq<Event>)
    requires Run(ss, es) && Can(ss[|es|], e) && s == Do(ss[|es|], e)
    ensures Run(ss', es') && ss'[|es'|] == s
  {
    ss', es' := ss + [s], es + [e];
  }

  /** The first pruner to come takes the lock. */
  lemma LonePrunerLocks(d: Dir, id: nat) returns (ss: seq<Locks>, es: seq<Event>)
    ensures Run(ss, es)
    ensures var x := Slot(d, Pruner(id)); ss[|es|] == Locks(0, map[x := 0], map[x := Held], {})
  {
    var x := Slot(d, Pruner(id));
    var s := Locks(0, map[], map[], {});
    var f := s.(files := map[x := 0]);
    var nothing := Read(0, {}, false);
    assert Present(s, d) == {} && Present(f, d) == {x.agent} && {x.agent} - {x.agent} == {};
    ss, es := [s], [];
    ss, es := RunExtends(ss, es, BeginRead(x), s.(phase := map[x := Polling(nothing)]));
    ss, es := RunExtends(ss, es, EndRead(x), s.(phase := map[x := Clear]));
    ss, es := RunExtends(ss, es, Create(x), f.(phase := map[x := Created]));
    ss, es := RunExtends(ss, es, BeginRead(x), f.(phase := map[x := Rechecking(Read(0, {x.agent}, false))]));
    ss, es := RunExtends(ss, es, Visit(x, x.agent), f.(phase := map[x := Rechecking(nothing)]));
    ss, es := RunExtends(ss, es, EndRead(x), f.(phase := map[x := Held]));
  }

  /** `x` and its rival `y` both hold the directory, `x`'s lock being just `STALE_AFTER` old. */
  ghost predicate Overlap(s: Locks, x: Slot, y: Slot) {
    && Rivals(x, y) && x in s.phase && s.phase[x].Held? && Holds(s, y)
    && x in s.files && Age(s.now, s.files[x]) == STALE_AFTER
  }

  /** Freshness is what carries the exclusion: a pruner whose lock has reached `STALE_AFTER`,
      to the second, has a writer let in beside it. */
  lemma StaleHolderIsPassed(d: Dir, id: nat, job: nat)
    ensures exists ss, es :: Run(ss, es) && Overlap(ss[|es|], Slot(d, Pruner(id)), Slot(d, Writer(d, job)))
  {
    var x, y := Slot(d, Pruner(id)), Slot(d, Writer(d, job));
    var s := Locks(STALE_AFTER, map[x := 0], map[x := Held], {});
    var ss, es := LonePrunerLocks(d, id);
    ss, es := RunExtends(ss, es, Tick(STALE_AFTER), s);
    ss, es := RunExtends(ss, es, RemoteCreate(y), s.(files := s.files[y := STALE_AFTER], phase := s.phase[y := Held]));
    assert Overlap(ss[|es|], x, y);
  }
}
