/** `with_lock::run` after the lock is taken: the main thread and the refresher thread as a
    timed transition system. Time passes only while no step is overdue: a refresh starts
    `REFRESH_INTERVAL` after the last one ended, a refresh call takes at most `d`, writing the
    marker at most `m`. */
module Publishing {
  import LockProtocol

  type Time = LockProtocol.Time
  const STALE_AFTER := LockProtocol.STALE_AFTER

  // with_lock.rs:30, in seconds.
  const REFRESH_INTERVAL: Time := 5 * 60

  /** The lock's mtime is set at some moment of a refresh call, if at all. */
  datatype Refresher = Napping(since: Time) | Refreshing(began: Time, stamped: bool) | Quit

  datatype Main =
    | Running                       // the command
    | Ended(ok: bool)               // the command has ended, the flag is not read yet
    | Writing(began: Time)          // the marker is on its way
    | Returned(success: bool)       // `run_publish` is over
    | Joining(success: bool)        // the stop flag is set
    | Joined(success: bool)
    | Done(success: bool, deleted: bool)

  /** `marker` is set when the marker lands. History variables: `neverStale`, no moment since
      the acquisition at which the lock was stale; `underFreshLock`, its value when the marker
      landed; `sawFailure`, the value of the flag when the main thread read it. */
  datatype State = State(
    now: Time,
    mtime: Time,
    lock: bool,
    refresher: Refresher,
    failed: bool,
    stop: bool,
    main: Main,
    marker: bool,
    neverStale: bool,
    underFreshLock: bool,
    sawFailure: bool,
    commandOk: bool)

  datatype Step =
    | Tick(dt: Time)
    | StartRefresh
    | Stamp(at: Time)
    | RefreshOk
    | RefreshFails
    | SeeStop
    | CommandEnds(ok: bool)
    | Check
    | MarkerLands
    | MarkerReturns(ok: bool)
    | SetStop
    | Join
    | Delete(ok: bool)

  datatype Bounds = Bounds(d: Time, m: Time) {
    predicate Fit() {
      REFRESH_INTERVAL + 2 * d + m < STALE_AFTER
    }
  }

  predicate RefresherStep(x: Step) {
    x.StartRefresh? || x.Stamp? || x.RefreshOk? || x.RefreshFails? || x.SeeStop?
  }

  predicate Can(b: Bounds, s: State, x: Step) {
    match x
    case Tick(dt) =>
      && (s.refresher.Napping? ==> s.now + dt <= s.refresher.since + REFRESH_INTERVAL)
      && (s.refresher.Refreshing? ==> s.now + dt <= s.refresher.began + b.d)
      && (s.main.Writing? ==> s.now + dt <= s.main.began + b.m)
    case StartRefresh => s.refresher.Napping? && s.now == s.refresher.since + REFRESH_INTERVAL
    case Stamp(at) => s.refresher.Refreshing? && !s.refresher.stamped && s.refresher.began <= at <= s.now
    case RefreshOk => s.refresher.Refreshing? && s.refresher.stamped
    case RefreshFails => s.refresher.Refreshing?
    case SeeStop => s.refresher.Napping? && s.stop
    case CommandEnds(_) => s.main.Running?
    case Check => s.main.Ended?
    case MarkerLands => s.main.Writing?
    case MarkerReturns(ok) => s.main.Writing? && (ok ==> s.marker)
    case SetStop => s.main.Returned?
    case Join => s.main.Joining? && s.refresher.Quit?
    case Delete(_) => s.main.Joined?
  }

  function Do(s: State, x: Step): State {
    match x
    case Tick(dt) =>
      s.(now := s.now + dt, neverStale := s.neverStale && LockProtocol.Age(s.now + dt, s.mtime) < STALE_AFTER)
    case StartRefresh => s.(refresher := Refreshing(s.now, false))
    case Stamp(at) =>
      // A remote PUT would create the lock if it were gone.
      if s.refresher.Refreshing? then s.(refresher := Refreshing(s.refresher.began, true), mtime := at, lock := true) else s
    case RefreshOk => s.(refresher := Napping(s.now))
    case RefreshFails => s.(refresher := Quit, failed := true)
    case SeeStop => s.(refresher := Quit)
    case CommandEnds(ok) => s.(main := Ended(ok), commandOk := ok)
    case Check =>
      s.(sawFailure := s.failed,
         main := if !s.failed && s.main.Ended? && s.main.ok then Writing(s.now) else Returned(false))
    case MarkerLands => s.(marker := true, underFreshLock := if s.marker then s.underFreshLock else s.neverStale)
    case MarkerReturns(ok) => s.(main := Returned(ok))
    case SetStop => if s.main.Returned? then s.(stop := true, main := Joining(s.main.success)) else s
    case Join => if s.main.Joining? then s.(main := Joined(s.main.success)) else s
    case Delete(ok) => if s.main.Joined? then s.(main := Done(s.main.success, ok), lock := s.lock && !ok) else s
  }

  /** The lock was taken, with its mtime set at most one call's length ago. */
  predicate Init(b: Bounds, s: State) {
    && s.lock && s.mtime <= s.now <= s.mtime + b.d && s.refresher == Napping(s.now)
    && !s.failed && !s.stop && s.main.Running? && !s.marker && s.neverStale
  }

  // ----- The invariant -----

  predicate RefresherInv(b: Bounds, s: State) {
    match s.refresher
    case Napping(since) =>
      && s.mtime <= since <= s.mtime + b.d && since <= s.now <= since + REFRESH_INTERVAL && !s.failed
    case Refreshing(began, stamped) =>
      && began <= s.now <= began + b.d && !s.failed
      && (if stamped then began <= s.mtime <= s.now else s.mtime <= began <= s.mtime + b.d + REFRESH_INTERVAL)
    case Quit => s.failed || s.stop
  }

  /** Up to when the lock is surely fresh, as long as no failure has been noticed. */
  function Deadline(b: Bounds, s: State): Time {
    s.mtime + REFRESH_INTERVAL + 2 * b.d
  }

  predicate MainInv(b: Bounds, s: State) {
    match s.main
    case Running => !s.stop && !s.marker
    case Ended(ok) => !s.stop && !s.marker && s.commandOk == ok
    case Writing(began) =>
      && !s.stop && s.commandOk && !s.sawFailure
      && began <= Deadline(b, s) && began <= s.now <= began + b.m
    case Returned(success) => !s.stop && (success ==> s.marker)
    case Joining(success) => s.stop && (success ==> s.marker)
    case Joined(success) => s.stop && s.refresher.Quit? && (success ==> s.marker)
    case Done(success, deleted) => s.stop && s.refresher.Quit? && (success ==> s.marker) && (deleted ==> !s.lock)
  }

  predicate Inv(b: Bounds, s: State) {
    && RefresherInv(b, s) && MainInv(b, s) && s.mtime <= s.now
    && ((s.main.Running? || s.main.Ended?) && !s.failed ==> s.neverStale)
    && (s.main.Writing? ==> s.neverStale)
    && (s.marker ==> s.underFreshLock && s.commandOk && !s.sawFailure)
  }

  lemma InvKeptByRefresher(b: Bounds, s: State, x: Step)
    requires b.Fit() && Inv(b, s) && Can(b, s, x) && RefresherStep(x)
    ensures Inv(b, Do(s, x))
  {
    match x
    case StartRefresh =>
    case Stamp(at) =>
    case RefreshOk =>
    case RefreshFails =>
    case SeeStop =>
  }

  lemma InvKeptByTick(b: Bounds, s: State, dt: Time)
    requires b.Fit() && Inv(b, s) && Can(b, s, Tick(dt))
    ensures Inv(b, Do(s, Tick(dt)))
  {
  }

  lemma InvKeptByMain(b: Bounds, s: State, x: Step)
    requires b.Fit() && Inv(b, s) && Can(b, s, x) && !RefresherStep(x) && !x.Tick?
    ensures Inv(b, Do(s, x))
  {
  }

  lemma InvKept(b: Bounds, s: State, x: Step)
    requires b.Fit() && Inv(b, s) && Can(b, s, x)
    ensures Inv(b, Do(s, x))
  {
    if x.Tick? {
      InvKeptByTick(b, s, x.dt);
    } else if RefresherStep(x) {
      InvKeptByRefresher(b, s, x);
    } else {
      InvKeptByMain(b, s, x);
    }
  }

  ghost predicate Run(b: Bounds, ss: seq<State>, xs: seq<Step>) {
    && |ss| == |xs| + 1 && Init(b, ss[0])
    && forall i :: 0 <= i < |xs| ==> Can(b, ss[i], xs[i]) && ss[i + 1] == Do(ss[i], xs[i])
  }

  lemma {:induction false} InvInRun(b: Bounds, ss: seq<State>, xs: seq<Step>, i: nat)
    requires b.Fit() && Run(b, ss, xs) && i < |ss|
    ensures Inv(b, ss[i])
    decreases i
  {
    if i == 0 {
    } else {
      InvInRun(b, ss, xs, i - 1);
      InvKept(b, ss[i - 1], xs[i - 1]);
    }
  }

  /** In every interleaving: a marker that is there landed while the lock had never been stale,
      after the command succeeded and without a refresh failure having been seen; and once the
      lock has been deleted it stays deleted. */
  lemma MarkerLandsUnderFreshLock(b: Bounds, ss: seq<State>, xs: seq<Step>)
    requires b.Fit() && Run(b, ss, xs)
    ensures forall i :: 0 <= i < |ss| && ss[i].marker ==> ss[i].underFreshLock && ss[i].commandOk && !ss[i].sawFailure
    ensures forall i :: 0 <= i < |ss| && ss[i].main.Done? && ss[i].main.success ==> ss[i].marker
    ensures forall i :: 0 <= i < |ss| && ss[i].main.Done? && ss[i].main.deleted ==> !ss[i].lock
  {
    forall i | 0 <= i < |ss| ensures Inv(b, ss[i]) {
      InvInRun(b, ss, xs, i);
    }
  }

  predicate SafeLandings(ss: seq<State>) {
    forall i :: 0 <= i < |ss| && ss[i].marker ==> ss[i].underFreshLock
  }

  predicate CommandOutlivesLock(ss: seq<State>) {
    exists i :: 0 <= i < |ss| && ss[i].main.Running? && !ss[i].neverStale
  }

  lemma RunExtends(b: Bounds, ss: seq<State>, xs: seq<Step>, x: Step, s: State) returns (ss': seq<State>, xs': seq<Step>)
    requires Run(b, ss, xs) && Can(b, ss[|xs|], x) && s == Do(ss[|xs|], x)
    ensures Run(b, ss', xs') && ss'[|xs'|] == s
  {
    ss', xs' := ss + [s], xs + [x];
  }

  /** A refresh call has taken its time when the command ends. */
  lemma SlowRefresh(b: Bounds) returns (ss: seq<State>, xs: seq<Step>, s: State)
    ensures Run(b, ss, xs) && s == ss[|xs|]
    ensures s == State(REFRESH_INTERVAL + 2 * b.d, 0, true, Refreshing(b.d + REFRESH_INTERVAL, false), false, false,
                       Running, false, REFRESH_INTERVAL + 2 * b.d < STALE_AFTER, false, false, false)
  {
    s := State(b.d, 0, true, Napping(b.d), false, false, Running, false, true, false, false, false);
    ss, xs := [s], [];
    s := s.(now := b.d + REFRESH_INTERVAL, neverStale := b.d + REFRESH_INTERVAL < STALE_AFTER);
    ss, xs := RunExtends(b, ss, xs, Tick(REFRESH_INTERVAL), s);
    s := s.(refresher := Refreshing(s.now, false));
    ss, xs := RunExtends(b, ss, xs, StartRefresh, s);
    s := s.(now := REFRESH_INTERVAL + 2 * b.d, neverStale := REFRESH_INTERVAL + 2 * b.d < STALE_AFTER);
    ss, xs := RunExtends(b, ss, xs, Tick(b.d), s);
  }

  /** A refresh that fails right after the flag was read lets a marker land under a stale lock. */
  lemma LateFailure(b: Bounds)
    requires !b.Fit()
    ensures exists ss, xs :: Run(b, ss, xs) && !SafeLandings(ss)
  {
    var ss, xs, s := SlowRefresh(b);
    s := s.(main := Ended(true), commandOk := true);
    ss, xs := RunExtends(b, ss, xs, CommandEnds(true), s);
    s := s.(main := Writing(s.now));
    ss, xs := RunExtends(b, ss, xs, Check, s);
    s := s.(refresher := Quit, failed := true);
    ss, xs := RunExtends(b, ss, xs, RefreshFails, s);
    s := s.(now := s.now + b.m, neverStale := false);
    ss, xs := RunExtends(b, ss, xs, Tick(b.m), s);
    s := s.(marker := true);
    ss, xs := RunExtends(b, ss, xs, MarkerLands, s);
    assert ss[|xs|].marker && !ss[|xs|].underFreshLock;
  }

  /** The bound is exact, in seconds. */
  lemma BoundIsExact(b: Bounds)
    ensures 300 + 2 * b.d + b.m < 1800 <==> forall ss, xs :: Run(b, ss, xs) ==> SafeLandings(ss)
  {
    if b.Fit() {
      forall ss, xs | Run(b, ss, xs) ensures SafeLandings(ss) {
        MarkerLandsUnderFreshLock(b, ss, xs);
      }
    } else {
      LateFailure(b);
    }
  }

  /** While the command runs, its lock has never been stale unless a refresh has failed. */
  predicate CoveredUntilFailure(ss: seq<State>) {
    forall i :: 0 <= i < |ss| && ss[i].main.Running? && !ss[i].neverStale ==> ss[i].failed
  }

  /** The bound for that, which leaves the marker out. */
  predicate Covers(b: Bounds) {
    REFRESH_INTERVAL + 2 * b.d < STALE_AFTER
  }

  predicate CoverInv(b: Bounds, s: State) {
    && RefresherInv(b, s) && s.mtime <= s.now
    && (s.main.Running? || s.main.Ended? ==> !s.stop && (!s.failed ==> s.neverStale))
  }

  lemma CoverInvKept(b: Bounds, s: State, x: Step)
    requires Covers(b) && CoverInv(b, s) && Can(b, s, x)
    ensures CoverInv(b, Do(s, x))
  {
  }

  lemma {:induction false} CoverInRun(b: Bounds, ss: seq<State>, xs: seq<Step>, i: nat)
    requires Covers(b) && Run(b, ss, xs) && i < |ss|
    ensures CoverInv(b, ss[i])
    decreases i
  {
    if i == 0 {
    } else {
      CoverInRun(b, ss, xs, i - 1);
      CoverInvKept(b, ss[i - 1], xs[i - 1]);
    }
  }

  /** A refresh can be so slow that the lock goes stale under the command, with no failure. */
  lemma SlowRefreshUncovers(b: Bounds)
    requires !Covers(b)
    ensures exists ss, xs :: Run(b, ss, xs) && !CoveredUntilFailure(ss)
  {
    var ss, xs, s := SlowRefresh(b);
    assert ss[|xs|].main.Running? && !ss[|xs|].neverStale && !ss[|xs|].failed;
  }

  /** The command uploads under a stale lock only after a refresh has failed, if and only if two
      refresh calls and the interval between them fit into `STALE_AFTER`. */
  lemma CommandIsCovered(b: Bounds)
    ensures 300 + 2 * b.d < 1800 <==> forall ss, xs :: Run(b, ss, xs) ==> CoveredUntilFailure(ss)
  {
    if Covers(b) {
      forall ss, xs | Run(b, ss, xs) ensures CoveredUntilFailure(ss) {
        forall i | 0 <= i < |ss| ensures CoverInv(b, ss[i]) {
          CoverInRun(b, ss, xs, i);
        }
      }
    } else {
      SlowRefreshUncovers(b);
    }
  }

  /** Nothing stops the command itself when a refresh has failed: it can still be uploading
      when its lock is stale. */
  lemma CommandMayOutliveLock(b: Bounds)
    ensures exists ss, xs :: Run(b, ss, xs) && CommandOutlivesLock(ss)
  {
    var s0 := State(0, 0, true, Napping(0), false, false, Running, false, true, false, false, false);
    var xs := [Tick(REFRESH_INTERVAL), StartRefresh, RefreshFails, Tick(STALE_AFTER)];
    var s1 := Do(s0, xs[0]);
    var s2 := Do(s1, xs[1]);
    var s3 := Do(s2, xs[2]);
    var s4 := Do(s3, xs[3]);
    var ss := [s0, s1, s2, s3, s4];
    assert Run(b, ss, xs);
    assert ss[4].main.Running? && !ss[4].neverStale;
  }

  /** What the main thread has come to. */
  predicate SameMain(s: State, s': State) {
    s'.main == s.main && s'.marker == s.marker && s'.commandOk == s.commandOk && s'.sawFailure == s.sawFailure
  }

  lemma OffMainStep(b: Bounds, s: State, x: Step)
    requires Can(b, s, x) && (RefresherStep(x) || x.Tick?)
    ensures var s' := Do(s, x);
            && SameMain(s, s') && s'.stop == s.stop
            && (s.refresher.Quit? ==> s'.refresher.Quit? && s'.lock == s.lock)
  {
    match x
    case Tick(_) =>
    case StartRefresh =>
    case Stamp(_) =>
    case RefreshOk =>
    case RefreshFails =>
    case SeeStop =>
    case _ =>
  }

  /** `run` in its own form: the main thread's statements, with the refresher and the clock
      doing what they like in between. `faults` counts the marker writes and the lock deletions
      that failed. */
  class Process {
    var s: State
    ghost var faults: nat

    constructor (initial: State)
      ensures s == initial
    {
      s, faults := initial, 0;
    }

    method Act(b: Bounds, x: Step)
      requires b.Fit() && Inv(b, s) && Can(b, s, x)
      requires !x.CommandEnds? && !x.MarkerLands? && !x.MarkerReturns? && !x.Delete?
      modifies this`s
      ensures Inv(b, s) && s == Do(old(s), x)
    {
      InvKept(b, s, x);
      s := Do(s, x);
    }

    /** The command, with whatever status it ends. */
    method RunCommand(b: Bounds)
      requires b.Fit() && Inv(b, s) && s.main.Running?
      modifies this`s
      ensures Inv(b, s) && s.main == Ended(s.commandOk)
    {
      Meanwhile(b);
      var ok: bool := *;
      InvKept(b, s, CommandEnds(ok));
      s := Do(s, CommandEnds(ok));
      Meanwhile(b);
    }

    /** `put_marker`, which may fail with or without the marker having landed. */
    method PutMarker(b: Bounds) returns (ok: bool)
      requires b.Fit() && Inv(b, s) && s.main.Writing?
      modifies this
      ensures Inv(b, s) && s.main == Returned(ok) && (ok ==> s.marker)
      ensures s.commandOk == old(s).commandOk && s.sawFailure == old(s).sawFailure
      ensures faults == old(faults) + if ok then 0 else 1
    {
      Meanwhile(b);
      var landed: bool := *;
      if landed {
        InvKept(b, s, MarkerLands);
        s := Do(s, MarkerLands);
        Meanwhile(b);
      }
      ok := *;
      ok := ok && s.marker;
      faults := if ok then faults else faults + 1;
      InvKept(b, s, MarkerReturns(ok));
      s := Do(s, MarkerReturns(ok));
    }

    /** `del_lock`, which may fail. */
    method DelLock(b: Bounds) returns (deleted: bool)
      requires b.Fit() && Inv(b, s) && s.main.Joined?
      modifies this
      ensures Inv(b, s) && s.main == Done(old(s).main.success, deleted) && SameMain(old(s).(main := s.main), s)
      ensures faults == old(faults) + if deleted then 0 else 1
    {
      deleted := *;
      faults := if deleted then faults else faults + 1;
      InvKept(b, s, Delete(deleted));
      s := Do(s, Delete(deleted));
    }

    method Meanwhile(b: Bounds)
      requires b.Fit() && Inv(b, s)
      modifies this`s
      ensures Inv(b, s) && SameMain(old(s), s)
      ensures s.stop == old(s).stop && (old(s).refresher.Quit? ==> s.refresher.Quit? && s.lock == old(s).lock)
    {
      var steps: nat := *;
      while steps > 0
        invariant Inv(b, s) && SameMain(old(s), s)
        invariant s.stop == old(s).stop && (old(s).refresher.Quit? ==> s.refresher.Quit? && s.lock == old(s).lock)
      {
        steps := steps - 1;
        var x: Step := *;
        if (RefresherStep(x) || x.Tick?) && Can(b, s, x) {
          OffMainStep(b, s, x);
          Act(b, x);
        }
      }
    }

    /** `refresher.join()`: the stop flag is set, so the refresher leaves its loop. */
    method JoinRefresher(b: Bounds)
      requires b.Fit() && Inv(b, s) && s.main.Joining?
      modifies this`s
      ensures Inv(b, s) && s.main == Joined(old(s).main.success) && SameMain(old(s).(main := s.main), s)
    {
      Meanwhile(b);
      EndCall(b);
      if s.refresher.Napping? {
        Act(b, SeeStop);
      }
      Act(b, Join);
    }

    /** A refresh call that is under way comes to its end. */
    method EndCall(b: Bounds)
      requires b.Fit() && Inv(b, s)
      modifies this`s
      ensures Inv(b, s) && !s.refresher.Refreshing? && (old(s).refresher.Quit? ==> s.refresher.Quit?)
      ensures SameMain(old(s), s) && s.stop == old(s).stop
    {
      if s.refresher.Refreshing? {
        var fails: bool := *;
        if fails {
          Act(b, RefreshFails);
        } else {
          if !s.refresher.stamped {
            Act(b, Stamp(s.now));
          }
          Act(b, RefreshOk);
        }
      }
    }

    /** `run_publish`: it succeeds if and only if the command did, no failed refresh was seen and
        the marker was written. */
    method RunPublish(b: Bounds) returns (success: bool)
      requires b.Fit() && Inv(b, s) && s.main.Running?
      modifies this
      ensures Inv(b, s) && s.main == Returned(success)
      ensures faults >= old(faults) && (success <==> s.commandOk && !s.sawFailure && faults == old(faults))
    {
      RunCommand(b);
      Act(b, Check);
      if s.main.Returned? {
        return false;
      }
      success := PutMarker(b);
    }

    /** A successful run has left its marker, which landed under a lock that was never stale; it
        succeeds unless something failed; and unless the deletion failed the lock is gone. */
    method RunWithLock(b: Bounds) returns (success: bool, deleted: bool)
      requires b.Fit() && Init(b, s)
      modifies this
      ensures success ==> s.marker
      ensures s.marker ==> s.underFreshLock && s.commandOk && !s.sawFailure
      ensures deleted ==> !s.lock
      ensures success && deleted <==> s.commandOk && !s.sawFailure && faults == old(faults)
    {
      success := RunPublish(b);
      Meanwhile(b);
      Act(b, SetStop);
      JoinRefresher(b);
      Meanwhile(b);
      deleted := DelLock(b);
      Meanwhile(b);
    }
  }
}
