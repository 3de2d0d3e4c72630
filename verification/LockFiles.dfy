/** `src/lock.rs` and the local half of `src/with_lock.rs` in their own form. Every file
    operation is one event of the lock protocol; between any two of them all other agents
    may take any number of steps. */
module LockFiles {
  import opened Wrappers
  import opened StoreHashes
  import opened LockProtocol

  lemma OneMoreRound(attempts: nat, round: Time)
    ensures attempts * round == (attempts - 1) * round + round
  {
  }

  /** What may happen to a slot without its agent: entries a directory read still owes it
      may vanish. */
  ghost predicate SlotKept(s: Locks, s': Locks, k: Slot) {
    && (k in s'.files <==> k in s.files)
    && (k in s'.phase <==> k in s.phase)
    && (k in s.phase ==> SamePhase(s.phase[k], s'.phase[k]))
  }

  predicate SamePhase(p: Phase, p': Phase) {
    if Reading(p) then
      && Reading(p') && (p.Polling? <==> p'.Polling?)
      && p'.read.todo <= p.read.todo && p'.read.conflict == p.read.conflict
    else p' == p
  }

  ghost predicate Bystood(s: Locks, s': Locks, a: Agent) {
    && s.now <= s'.now
    && (a in s'.crashed <==> a in s.crashed)
    && forall k: Slot :: k.agent == a ==> SlotKept(s, s', k)
  }

  /** At work on `k`, the agent leaves its other slots alone. */
  ghost predicate Apart(s: Locks, s': Locks, k: Slot) {
    s.now <= s'.now && forall j: Slot :: j.agent == k.agent && j != k ==> SlotKept(s, s', j)
  }

  function SlotOf(e: Event): Option<Slot> {
    match e
    case BeginRead(k) => Some(k)
    case Visit(k, _) => Some(k)
    case EndRead(k) => Some(k)
    case Create(k) => Some(k)
    case RemoteCreate(k) => Some(k)
    case Remove(k, _) => Some(k)
    case Refresh(k) => Some(k)
    case _ => None
  }

  /** Not a step of `a`, nor its crash. */
  predicate Foreign(e: Event, a: Agent) {
    && (SlotOf(e).Some? ==> SlotOf(e).value.agent != a)
    && (e.Crash? || e.Restart? ==> e.agent != a)
  }

  lemma ForeignStep(s: Locks, e: Event, a: Agent)
    requires Can(s, e) && Foreign(e, a)
    ensures Bystood(s, Do(s, e), a)
  {
  }

  lemma OwnStep(s: Locks, e: Event)
    requires Can(s, e) && SlotOf(e).Some?
    ensures Apart(s, Do(s, e), SlotOf(e).value)
    ensures Do(s, e).crashed == s.crashed
  {
  }

  /** The read that `e` ends has met a competing lock. */
  function Refused(s: Locks, e: Event): nat {
    if e.EndRead? && e.slot in s.phase && Reading(s.phase[e.slot]) && s.phase[e.slot].read.conflict then 1 else 0
  }

  /** The lock directories and the clock. `refusals` counts the directory reads of the code at
      work that met a competing lock, `faults` its file removals that failed. */
  class LockDirs {
    var s: Locks
    ghost var refusals: nat
    ghost var faults: nat

    constructor (initial: Locks)
      ensures s == initial
    {
      s, refusals, faults := initial, 0, 0;
    }

    /** One file operation on `k`, other than a removal. */
    method Act(k: Slot, e: Event)
      requires Inv(s) && Can(s, e) && SlotOf(e) == Some(k) && !e.Remove?
      modifies this`s, this`refusals
      ensures Inv(s) && s == Do(old(s), e) && Apart(old(s), s, k) && s.crashed == old(s).crashed
      ensures refusals == old(refusals) + Refused(old(s), e)
    {
      InvKept(s, e);
      OwnStep(s, e);
      refusals := refusals + Refused(s, e);
      s := Do(s, e);
    }

    /** `remove_file`, which may fail. */
    method RemoveFile(k: Slot) returns (removed: bool)
      requires Inv(s) && Can(s, Remove(k, true))
      modifies this`s, this`faults
      ensures Inv(s) && s == Do(old(s), Remove(k, removed)) && Apart(old(s), s, k) && s.crashed == old(s).crashed
      ensures faults == old(faults) + if removed then 0 else 1
    {
      removed := *;
      InvKept(s, Remove(k, removed));
      OwnStep(s, Remove(k, removed));
      faults := if removed then faults else faults + 1;
      s := Do(s, Remove(k, removed));
    }

    method Others(k: Slot)
      requires Inv(s)
      modifies this`s
      ensures Inv(s) && Bystood(old(s), s, k.agent) && SlotKept(old(s), s, k) && Apart(old(s), s, k)
    {
      var steps: nat := *;
      while steps > 0
        invariant Inv(s) && Bystood(old(s), s, k.agent)
      {
        steps := steps - 1;
        var e: Event := *;
        if Foreign(e, k.agent) && Can(s, e) {
          ForeignStep(s, e, k.agent);
          InvKept(s, e);
          s := Do(s, e);
        }
      }
    }

    method Sleep(k: Slot, dt: Time)
      requires Inv(s)
      modifies this`s
      ensures Inv(s) && SlotKept(old(s), s, k) && Apart(old(s), s, k) && s.now >= old(s).now + dt
      ensures k.agent in s.crashed <==> k.agent in old(s).crashed
    {
      InvKept(s, Tick(dt));
      s := Do(s, Tick(dt));
      Others(k);
    }

    /** `readdir` returns every entry it owes, and perhaps some that came later. */
    method VisitAll(k: Slot)
      requires Inv(s) && k.agent !in s.crashed && k in s.phase && Reading(s.phase[k])
      modifies this`s, this`refusals
      ensures Inv(s) && k.agent !in s.crashed && Apart(old(s), s, k)
      ensures k in s.files <==> k in old(s).files
      ensures k in s.phase && Reading(s.phase[k]) && (s.phase[k].Polling? <==> old(s).phase[k].Polling?)
      ensures s.phase[k].read.todo == {}
      ensures refusals == old(refusals)
    {
      while s.phase[k].read.todo != {}
        invariant Inv(s) && k.agent !in s.crashed && Apart(old(s), s, k)
        invariant k in s.files <==> k in old(s).files
        invariant k in s.phase && Reading(s.phase[k]) && (s.phase[k].Polling? <==> old(s).phase[k].Polling?)
        invariant refusals == old(refusals)
        decreases s.phase[k].read.todo
      {
        var entry :| entry in s.phase[k].read.todo;
        assert ReadInv(s, k.dir, s.phase[k].read) && entry in Present(s, k.dir);
        VisitOwed(k, entry);
        VisitLate(k);
      }
    }

    method VisitOwed(k: Slot, entry: Agent)
      requires Inv(s) && k.agent !in s.crashed && k in s.phase && Reading(s.phase[k])
      requires entry in s.phase[k].read.todo && Slot(k.dir, entry) in s.files
      modifies this`s, this`refusals
      ensures Inv(s) && k.agent !in s.crashed && Apart(old(s), s, k)
      ensures k in s.files <==> k in old(s).files
      ensures k in s.phase && Reading(s.phase[k]) && (s.phase[k].Polling? <==> old(s).phase[k].Polling?)
      ensures s.phase[k].read.todo < old(s).phase[k].read.todo
      ensures refusals == old(refusals)
    {
      Act(k, Visit(k, entry));
      Others(k);
    }

    method VisitLate(k: Slot)
      requires Inv(s) && k.agent !in s.crashed && k in s.phase && Reading(s.phase[k])
      modifies this`s, this`refusals
      ensures Inv(s) && k.agent !in s.crashed && Apart(old(s), s, k)
      ensures k in s.files <==> k in old(s).files
      ensures k in s.phase && Reading(s.phase[k]) && (s.phase[k].Polling? <==> old(s).phase[k].Polling?)
      ensures s.phase[k].read.todo <= old(s).phase[k].read.todo
      ensures refusals == old(refusals)
    {
      var late: Agent := *;
      if Slot(k.dir, late) in s.files {
        Act(k, Visit(k, late));
      }
    }

    /** One pass over the lock directory: polling leaves us clear to create or back at the
        start, a re-check leaves us holding the lock or about to back off. */
    method ReadDir(k: Slot)
      requires Inv(s) && WellPlaced(k) && k.agent !in s.crashed && (k !in s.phase || s.phase[k].Created?)
      modifies this`s, this`refusals
      ensures Inv(s) && k.agent !in s.crashed && Apart(old(s), s, k)
      ensures k in s.files <==> k in old(s).files
      ensures k !in old(s).phase ==> k !in s.phase || s.phase[k].Clear?
      ensures k in old(s).phase ==> k in s.phase && (s.phase[k].Held? || s.phase[k].BackingOff?)
      ensures refusals == old(refusals) + if k in s.phase && !s.phase[k].BackingOff? then 0 else 1
    {
      Open(k);
      VisitAll(k);
      Close(k);
    }

    method Close(k: Slot)
      requires Inv(s) && k.agent !in s.crashed && k in s.phase && Reading(s.phase[k]) && s.phase[k].read.todo == {}
      modifies this`s, this`refusals
      ensures Inv(s) && k.agent !in s.crashed && Apart(old(s), s, k) && s.files == old(s).files
      ensures old(s).phase[k].Polling? ==> k !in s.phase || s.phase[k].Clear?
      ensures old(s).phase[k].Rechecking? ==> k in s.phase && (s.phase[k].Held? || s.phase[k].BackingOff?)
      ensures refusals == old(refusals) + if k in s.phase && !s.phase[k].BackingOff? then 0 else 1
    {
      Act(k, EndRead(k));
    }

    method Open(k: Slot)
      requires Inv(s) && WellPlaced(k) && k.agent !in s.crashed && (k !in s.phase || s.phase[k].Created?)
      modifies this`s, this`refusals
      ensures Inv(s) && k.agent !in s.crashed && Apart(old(s), s, k)
      ensures k in s.files <==> k in old(s).files
      ensures k in s.phase && (if k in old(s).phase then s.phase[k].Rechecking? else s.phase[k].Polling?)
      ensures refusals == old(refusals)
    {
      Act(k, BeginRead(k));
      Others(k);
    }

    /** Poll, create, re-check, back off: one round of the loop in `acquire_exclusive` and,
        for a writer, of the one in `put_lock_local`. `raced` says that the lock was written. */
    method TryOnce(k: Slot) returns (ok: bool, clean: bool, raced: bool)
      requires Inv(s) && WellPlaced(k) && k.agent !in s.crashed && k !in s.phase
      modifies this
      ensures Inv(s) && k.agent !in s.crashed && Apart(old(s), s, k)
      ensures ok ==> k in s.phase && s.phase[k].Held?
      ensures !ok ==> k !in s.phase && (clean && k !in old(s).files ==> k !in s.files)
      ensures refusals == old(refusals) + if ok then 0 else 1
      ensures faults >= old(faults) && (clean <==> faults == old(faults))
    {
      ok, clean := false, true;
      ReadDir(k);
      Others(k);
      raced := k in s.phase;
      if raced {
        ok, clean := Contend(k);
      }
    }

    method Contend(k: Slot) returns (ok: bool, clean: bool)
      requires Inv(s) && WellPlaced(k) && k.agent !in s.crashed && k in s.phase && s.phase[k].Clear?
      modifies this
      ensures Inv(s) && k.agent !in s.crashed && Apart(old(s), s, k)
      ensures ok ==> k in s.phase && s.phase[k].Held?
      ensures !ok ==> k !in s.phase && (clean ==> k !in s.files)
      ensures refusals == old(refusals) + if ok then 0 else 1
      ensures faults >= old(faults) && (clean <==> faults == old(faults))
    {
      clean := true;
      ok := CreateAndRecheck(k);
      if !ok {
        clean := BackOff(k);
      }
    }

    method WriteLock(k: Slot)
      requires Inv(s) && WellPlaced(k) && k.agent !in s.crashed && k in s.phase && s.phase[k].Clear?
      modifies this`s, this`refusals
      ensures Inv(s) && k.agent !in s.crashed && Apart(old(s), s, k)
      ensures k in s.phase && s.phase[k].Created?
      ensures refusals == old(refusals)
    {
      Act(k, Create(k));
      Others(k);
    }

    method CreateAndRecheck(k: Slot) returns (ok: bool)
      requires Inv(s) && WellPlaced(k) && k.agent !in s.crashed && k in s.phase && s.phase[k].Clear?
      modifies this`s, this`refusals
      ensures Inv(s) && k.agent !in s.crashed && Apart(old(s), s, k)
      ensures k in s.phase && (if ok then s.phase[k].Held? else s.phase[k].BackingOff?)
      ensures refusals == old(refusals) + if ok then 0 else 1
    {
      WriteLock(k);
      ReadDir(k);
      ok := s.phase[k].Held?;
    }

    method BackOff(k: Slot) returns (removed: bool)
      requires Inv(s) && k.agent !in s.crashed && k in s.phase && s.phase[k].BackingOff?
      modifies this`s, this`faults
      ensures Inv(s) && k.agent !in s.crashed && Apart(old(s), s, k)
      ensures k !in s.phase && (removed ==> k !in s.files)
      ensures removed <==> faults == old(faults)
      ensures faults >= old(faults)
    {
      removed := RemoveFile(k);
      Others(k);
    }

    /** `acquire_exclusive`. `clean` is false if a `remove_file` failed on the way.
        An attempt takes at least `least` besides the sleep: with `poll` 0 only that ends the loop. */
    method AcquireExclusive(k: Slot, waitBudget: Time, poll: Time, least: Time) returns (ok: bool, clean: bool, attempts: nat)
      requires Inv(s) && k.agent.Pruner? && k.agent !in s.crashed && k !in s.phase && k !in s.files
      requires poll + least > 0 || waitBudget == 0
      modifies this
      ensures Inv(s) && k.agent !in s.crashed && Apart(old(s), s, k)
      ensures ok ==> k in s.phase && s.phase[k].Held? && k in s.files
      ensures !ok ==> k !in s.phase && (clean ==> k !in s.files) && s.now >= old(s).now + waitBudget
      ensures attempts == 1 || (attempts > 1 && (attempts - 2) * (poll + least) < waitBudget)
      ensures refusals == old(refusals) + attempts - if ok then 1 else 0
      ensures faults >= old(faults) && (clean <==> faults == old(faults))
    {
      var deadline, round := s.now + waitBudget, poll + least;
      clean, attempts := true, 0;
      while true
        invariant Inv(s) && k.agent !in s.crashed && k !in s.phase && (clean ==> k !in s.files)
        invariant Apart(old(s), s, k)
        invariant s.now >= old(s).now + attempts * round
        invariant refusals == old(refusals) + attempts
        invariant faults >= old(faults) && (clean <==> faults == old(faults))
        invariant attempts > 0 ==> (attempts - 1) * round < waitBudget
        decreases waitBudget - attempts * round, if attempts == 0 then 1 else 0
      {
        attempts := attempts + 1;
        OneMoreRound(attempts, round);
        var tidied, raced;
        ok, tidied, raced := TryOnce(k);
        clean := clean && tidied;
        if ok || s.now >= deadline {
          return;
        }
        Sleep(k, round);
      }
    }

    /** `put_lock_local`, given up after `rounds` rounds (the code goes on for ever). */
    method PutLockLocal(k: Slot, rounds: nat) returns (ok: bool)
      requires Inv(s) && WellPlaced(k) && k.agent.Writer? && k.agent !in s.crashed && k !in s.phase
      modifies this
      ensures Inv(s) && k.agent !in s.crashed && Apart(old(s), s, k)
      ensures if ok then k in s.phase && s.phase[k].Held? && k in s.files else k !in s.phase
      ensures !ok ==> refusals == old(refusals) + rounds && s.now >= old(s).now + rounds
    {
      ok := false;
      for n := 0 to rounds
        invariant Inv(s) && k.agent !in s.crashed && k !in s.phase && Apart(old(s), s, k)
        invariant refusals == old(refusals) + n && s.now >= old(s).now + n
      {
        var clean, raced;
        ok, clean, raced := TryOnce(k);
        if ok {
          return;
        }
        Sleep(k, if raced then 1 else 5);
      }
    }

    /** Dropping an `ExclusiveLock`, or a writer's `del_lock`. */
    method Drop(k: Slot) returns (removed: bool)
      requires Inv(s) && k.agent !in s.crashed && k in s.phase && s.phase[k].Held?
      modifies this`s, this`faults
      ensures Inv(s) && k.agent !in s.crashed && Apart(old(s), s, k)
      ensures k !in s.phase && (removed ==> k !in s.files)
      ensures removed <==> faults == old(faults)
      ensures faults >= old(faults)
    {
      removed := RemoveFile(k);
      Others(k);
    }

    predicate AllHeld(p: Agent, dirs: seq<Dir>)
      reads this
    {
      forall i :: 0 <= i < |dirs| ==> Slot(dirs[i], p) in s.phase && s.phase[Slot(dirs[i], p)].Held?
    }

    predicate NoneHeld(p: Agent, dirs: seq<Dir>)
      reads this
    {
      forall i :: 0 <= i < |dirs| ==> Slot(dirs[i], p) !in s.phase
    }

    predicate NoFiles(p: Agent, dirs: seq<Dir>)
      reads this
    {
      forall i :: 0 <= i < |dirs| ==> Slot(dirs[i], p) !in s.files
    }

    /** Locking a list of directories (prune.rs:103-114) is all or nothing: the first failure
        drops what was locked before it. */
    method AcquireAll(p: Agent, dirs: seq<Dir>, waitBudget: Time, poll: Time) returns (ok: bool, clean: bool, tries: nat)
      requires Inv(s) && p.Pruner? && p !in s.crashed && NoneHeld(p, dirs) && NoFiles(p, dirs)
      requires forall i, j :: 0 <= i < j < |dirs| ==> dirs[i] != dirs[j]
      requires poll > 0 || waitBudget == 0
      modifies this
      ensures Inv(s) && p !in s.crashed
      ensures ok ==> AllHeld(p, dirs)
      ensures !ok ==> NoneHeld(p, dirs) && (clean ==> NoFiles(p, dirs))
      ensures !ok ==> refusals > old(refusals) && s.now >= old(s).now + waitBudget
      ensures !ok ==> tries == 1 || (tries > 1 && (tries - 2) * poll < waitBudget)
      ensures faults >= old(faults) && (clean <==> faults == old(faults))
    {
      ok, clean, tries := true, true, 0;
      var locked := 0;
      while locked < |dirs|
        invariant locked <= |dirs| && Inv(s) && p !in s.crashed && refusals >= old(refusals) && s.now >= old(s).now
        invariant ok && faults >= old(faults) && (clean <==> faults == old(faults))
        invariant AllHeld(p, dirs[..locked]) && NoneHeld(p, dirs[locked..]) && NoFiles(p, dirs[locked..])
      {
        var k := Slot(dirs[locked], p);
        assert dirs[locked..][0] == dirs[locked];
        var tidied;
        ok, tidied, tries := AcquireExclusive(k, waitBudget, poll, 0);
        clean := clean && tidied;
        assert forall i :: 0 <= i < locked ==> dirs[..locked][i] == dirs[i];
        assert forall i :: 0 <= i < |dirs| - locked ==> dirs[locked..][i] == dirs[locked + i];
        if !ok {
          var dropped := DropAll(p, dirs, locked);
          clean := clean && dropped;
          return;
        }
        locked := locked + 1;
      }
    }

    method DropAll(p: Agent, dirs: seq<Dir>, locked: nat) returns (clean: bool)
      requires Inv(s) && p !in s.crashed && locked <= |dirs|
      requires forall i, j :: 0 <= i < j < |dirs| ==> dirs[i] != dirs[j]
      requires AllHeld(p, dirs[..locked])
      modifies this`s, this`faults
      ensures Inv(s) && p !in s.crashed && NoneHeld(p, dirs[..locked]) && (clean ==> NoFiles(p, dirs[..locked]))
      ensures forall i :: locked <= i < |dirs| ==> SlotKept(old(s), s, Slot(dirs[i], p))
      ensures faults >= old(faults) && (clean <==> faults == old(faults)) && s.now >= old(s).now
    {
      clean := true;
      for n := 0 to locked
        invariant Inv(s) && p !in s.crashed && s.now >= old(s).now
        invariant faults >= old(faults) && (clean <==> faults == old(faults))
        invariant AllHeld(p, dirs[n..locked]) && NoneHeld(p, dirs[..n]) && (clean ==> NoFiles(p, dirs[..n]))
        invariant forall i :: locked <= i < |dirs| ==> SlotKept(old(s), s, Slot(dirs[i], p))
      {
        assert dirs[n..locked][0] == dirs[n];
        var removed := Drop(Slot(dirs[n], p));
        clean := clean && removed;
        assert forall i :: 0 <= i < n ==> dirs[..n][i] == dirs[i];
        assert forall i :: 0 <= i < locked - n ==> dirs[n..locked][i] == dirs[n + i];
      }
    }
  }

  lemma DivideBound(a: nat, n: nat, p: nat)
    requires p > 0 && a * p <= n
    ensures a <= n / p
  {
    assert (n / p) * p + n % p == n;
    assert a * p < (n / p + 1) * p;
  }

  /** The bound on the number of attempts, spelled out; `round` is what one takes with its sleep. */
  lemma AttemptsBounded(attempts: nat, waitBudget: Time, round: Time)
    requires round > 0 && (attempts == 1 || (attempts > 1 && (attempts - 2) * round < waitBudget))
    ensures attempts <= (waitBudget + round - 1) / round + 1
  {
    if attempts > 1 {
      assert (attempts - 1) * round == (attempts - 2) * round + round;
      DivideBound(attempts - 1, waitBudget + round - 1, round);
    }
  }

  predicate Ascending(dirs: seq<Dir>) {
    forall i, j :: 0 <= i < j < |dirs| ==> dirs[i] < dirs[j]
  }

  /** Inserting `d` between what is smaller and what is larger. */
  lemma InsertedAscending(low: seq<Dir>, d: Dir, high: seq<Dir>)
    requires Ascending(low + high)
    requires (forall x :: x in low ==> x < d) && (forall x :: x in high ==> d < x)
    ensures Ascending(low + [d] + high)
    ensures forall x :: x in low + [d] + high <==> x in low + high || x == d
  {
    var all, more := low + high, low + [d] + high;
    forall i, j | 0 <= i < j < |more| ensures more[i] < more[j] {
      if i != |low| && j != |low| {
        assert more[i] == all[if i < |low| then i else i - 1] && more[j] == all[if j < |low| then j else j - 1];
      } else if i == |low| {
        assert more[j] in high;
      } else {
        assert more[i] in low;
      }
    }
  }

  /** `BTreeSet::insert`. */
  method Insert(sorted: seq<Dir>, d: Dir) returns (more: seq<Dir>)
    requires Ascending(sorted)
    ensures Ascending(more) && forall x :: x in more <==> x in sorted || x == d
  {
    var at := 0;
    while at < |sorted| && sorted[at] < d
      invariant at <= |sorted| && forall i :: 0 <= i < at ==> sorted[i] < d
    {
      at := at + 1;
    }
    if at < |sorted| && sorted[at] == d {
      return sorted;
    }
    assert sorted == sorted[..at] + sorted[at..];
    InsertedAscending(sorted[..at], d, sorted[at..]);
    more := sorted[..at] + [d] + sorted[at..];
  }

  /** Collecting into a `BTreeSet`: sorted, and each directory once. */
  method SortedDirs(dirs: seq<Dir>) returns (sorted: seq<Dir>)
    ensures Ascending(sorted) && forall d :: d in sorted <==> d in dirs
  {
    sorted := [];
    for n := 0 to |dirs|
      invariant Ascending(sorted) && forall d :: d in sorted <==> d in dirs[..n]
    {
      sorted := Insert(sorted, dirs[n]);
      assert dirs[..n + 1] == dirs[..n] + [dirs[n]];
    }
    assert dirs[..|dirs|] == dirs;
  }

  // ----- What makes a lock file count -----

  const PRUNE: Bytes := [112, 114, 117, 110, 101, 45]

  predicate IsPruneName(name: Bytes) {
    PRUNE <= name
  }

  lemma PruneNamesAreSpelled(name: Bytes)
    ensures IsPruneName(name) <==> |name| >= 6 && Spells(name[..6], "prune-")
  {
  }

  /** A directory entry and what `metadata` says of it, if it says anything. */
  datatype LockFile = LockFile(name: Bytes, isFile: bool, mtime: Option<Time>)
  datatype LockEntry = LockEntry(name: Bytes, age: Time)

  /** What reading the lock directory yields. */
  datatype Listing = NoDir | BadDir | Entries(files: seq<LockFile>)

  /** `read_locks`: no directory means no locks; a directory that cannot be read and a failing
      `metadata` fail the whole read. */
  method ReadLocks(dir: Listing, now: Time) returns (locks: Option<seq<LockEntry>>)
    ensures dir.NoDir? ==> locks == Some([])
    ensures dir.BadDir? ==> locks == None
    ensures dir.Entries? ==> (locks.Some? <==> forall f :: f in dir.files ==> f.mtime.Some?)
    ensures dir.Entries? && locks.Some? ==> forall l :: l in locks.value <==>
              exists f :: f in dir.files && f.isFile && f.mtime.Some? && l == LockEntry(f.name, Age(now, f.mtime.value))
  {
    if dir.NoDir? {
      return Some([]);
    }
    if dir.BadDir? {
      return None;
    }
    var entries := dir.files;
    var found: seq<LockEntry> := [];
    for n := 0 to |entries|
      invariant forall f :: f in entries[..n] ==> f.mtime.Some?
      invariant forall l :: l in found <==>
        exists f :: f in entries[..n] && f.isFile && f.mtime.Some? && l == LockEntry(f.name, Age(now, f.mtime.value))
    {
      var f := entries[n];
      if f.mtime.None? {
        assert f in entries;
        return None;
      }
      if !f.isFile {
        continue;
      }
      found := found + [LockEntry(f.name, Age(now, f.mtime.value))];
    }
    assert entries[..|entries|] == entries;
    return Some(found);
  }

  /** The locks that stand in a pruner's way: fresh, and not its own. */
  method Competing(locks: seq<LockEntry>, own: Bytes) returns (names: seq<Bytes>)
    ensures forall name :: name in names <==> exists l :: l in locks && l.age <= STALE_AFTER && l.name != own && l.name == name
  {
    names := [];
    for n := 0 to |locks|
      invariant forall name :: name in names <==>
        exists l :: l in locks[..n] && l.age <= STALE_AFTER && l.name != own && l.name == name
    {
      if !(locks[n].age > STALE_AFTER) && locks[n].name != own {
        names := names + [locks[n].name];
      }
    }
    assert locks[..|locks|] == locks;
  }

  predicate FreshPrune(f: LockFile, now: Time) {
    IsPruneName(f.name) && f.mtime.Some? && Age(now, f.mtime.value) < STALE_AFTER
  }

  /** `fresh_prune_lock`: a directory that cannot be read holds no lock, and entries without
      metadata are passed over. */
  method FreshPruneLock(dir: Listing, now: Time) returns (held: bool)
    ensures held <==> dir.Entries? && exists f :: f in dir.files && FreshPrune(f, now)
  {
    if !dir.Entries? {
      return false;
    }
    var entries := dir.files;
    for n := 0 to |entries|
      invariant forall f :: f in entries[..n] ==> !FreshPrune(f, now)
    {
      if !IsPruneName(entries[n].name) || entries[n].mtime.None? {
        continue;
      }
      if Age(now, entries[n].mtime.value) < STALE_AFTER {
        assert entries[n] in entries && FreshPrune(entries[n], now);
        return true;
      }
    }
    assert entries[..|entries|] == entries;
    return false;
  }

  /** `pruneLockHeld` of lock-guard.js, in milliseconds and on signed differences: a directory
      that cannot be read holds no lock, and a request other than a PUT is never refused. */
  method PruneLockHeld(isPut: bool, dir: Listing, nowMs: Time) returns (refused: bool)
    ensures refused <==> isPut && dir.Entries? && exists f :: f in dir.files && FreshPruneMs(f, nowMs)
  {
    if !isPut || !dir.Entries? {
      return false;
    }
    var names := dir.files;
    var i := 0;
    while i < |names|
      invariant i <= |names| && forall f :: f in names[..i] ==> !FreshPruneMs(f, nowMs)
    {
      if IsPruneName(names[i].name) && names[i].mtime.Some? {
        if nowMs - names[i].mtime.value < STALE_MS {
          assert names[i] in names && FreshPruneMs(names[i], nowMs);
          return true;
        }
      }
      i := i + 1;
    }
    assert names[..|names|] == names;
    return false;
  }

  const STALE_MS: int := 30 * 60 * 1000

  predicate FreshPruneMs(f: LockFile, nowMs: Time) {
    IsPruneName(f.name) && f.mtime.Some? && nowMs - f.mtime.value < STALE_MS
  }

  /** Names tell agents apart, and only pruners' begin with `prune-`. */
  ghost predicate Naming(name: Agent -> Bytes) {
    && (forall a, b :: name(a) == name(b) ==> a == b)
    && (forall a :: IsPruneName(name(a)) <==> a.Pruner?)
  }

  /** A way to name all agents, digits in unary. */
  function UnaryName(a: Agent): Bytes {
    match a
    case Pruner(id) => PRUNE + Ones(id)
    case Writer(dir, job) => Ones(dir) + [45] + Ones(job)
  }

  function Ones(n: nat): Bytes {
    seq(n, _ => 49)
  }

  lemma UnaryWriters(dir: nat, job: nat, dir': nat, job': nat)
    requires UnaryName(Writer(dir, job)) == UnaryName(Writer(dir', job'))
    ensures dir == dir' && job == job'
  {
    var s, t := UnaryName(Writer(dir, job)), UnaryName(Writer(dir', job'));
    assert s[dir] == 45 && t[dir'] == 45;
    assert |s| == dir + 1 + job && |t| == dir' + 1 + job';
  }

  lemma NamingIsPossible()
    ensures Naming(UnaryName)
  {
    forall a: Agent ensures IsPruneName(UnaryName(a)) <==> a.Pruner? {
      if a.Writer? {
        assert UnaryName(a)[0] == 49 || UnaryName(a)[0] == 45;
      }
    }
    forall a: Agent, b: Agent | UnaryName(a) == UnaryName(b) ensures a == b {
      if a.Writer? && b.Writer? {
        UnaryWriters(a.dir, a.job, b.dir, b.job);
      } else {
        assert IsPruneName(UnaryName(a)) <==> a.Pruner?;
        assert IsPruneName(UnaryName(b)) <==> b.Pruner?;
        assert |UnaryName(a)| == |UnaryName(b)|;
      }
    }
  }

  /** The entry of a lock, last set at `mtime`. */
  function EntryOf(name: Agent -> Bytes, holder: Agent, mtime: Time): LockFile {
    LockFile(name(holder), true, Some(mtime))
  }

  /** Entry by entry, and whenever it is visited, the code's tests on names and ages are the
      protocol's: what a `Visit` of a read that began at `now` takes for a conflict is what
      `acquire_exclusive`, `fresh_prune_lock` and the server take for one. */
  lemma NamesDecide(name: Agent -> Bytes, reader: Agent, holder: Agent, now: Time, mtime: Time)
    requires Naming(name)
    ensures var f := EntryOf(name, holder, mtime);
            && (reader.Pruner? ==>
                  ((f.name != name(reader) && !(Age(now, mtime) > STALE_AFTER)) <==> Sees(reader, holder) && SeenFresh(reader, now, mtime)))
            && (reader.Writer? ==> (FreshPrune(f, now) <==> Sees(reader, holder) && SeenFresh(reader, now, mtime)))
  {
  }

  /** The server's clock counts milliseconds; both tests agree on whole seconds. */
  lemma SameInMilliseconds(f: LockFile, now: Time)
    requires f.mtime.Some?
    ensures FreshPrune(f, now) <==> FreshPruneMs(f.(mtime := Some(1000 * f.mtime.value)), 1000 * now)
  {
  }
}
