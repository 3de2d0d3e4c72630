/** `src/prune.rs`: from roots to keep-sets to the two sweeps, on real file names and the real
    closure-cache file. */
module PruneRun {
  import opened Wrappers
  import opened StoreHashes
  import opened NarInfos
  import opened Reachability
  import opened Closures
  import opened DepScan
  import Scanner
  import CacheProtocol
  import ClosureCache
  import GcRoots
  import LockFiles
  import LockProtocol

  const NARINFO_EXT: Bytes := [46, 110, 97, 114, 105, 110, 102, 111]
  const LS_EXT: Bytes := [46, 108, 115]

  function NarinfoName(h: StoreHash): Bytes {
    h.bytes + NARINFO_EXT
  }

  function ListingName(h: StoreHash): Bytes {
    h.bytes + LS_EXT
  }

  predicate EndsWith(name: Bytes, ext: Bytes) {
    |name| >= |ext| && name[|name| - |ext|..] == ext
  }

  /** The entries of the cache directory the first sweep looks at. */
  predicate IsEntryName(name: Bytes) {
    EndsWith(name, NARINFO_EXT) || EndsWith(name, LS_EXT)
  }

  lemma NamesTellHashes(g: StoreHash, h: StoreHash)
    ensures NarinfoName(g) == NarinfoName(h) ==> g == h
    ensures NarinfoName(g) != ListingName(h)
    ensures IsEntryName(NarinfoName(h)) && IsEntryName(ListingName(h))
  {
    if NarinfoName(g) == NarinfoName(h) {
      assert |g.bytes| == |h.bytes|;
      assert NarinfoName(g)[..|g.bytes|] == g.bytes && NarinfoName(h)[..|h.bytes|] == h.bytes;
    }
    var n, l := NarinfoName(g), ListingName(h);
    assert n[|n| - 1] == 111 && l[|l| - 1] == 115;
    assert NarinfoName(h)[|h.bytes|..] == NARINFO_EXT && l[|h.bytes|..] == LS_EXT;
  }

  lemma NamesAreSpelled(h: StoreHash)
    ensures NarinfoName(h)[..|h.bytes|] == h.bytes && Spells(NarinfoName(h)[|h.bytes|..], ".narinfo")
    ensures ListingName(h)[..|h.bytes|] == h.bytes && Spells(ListingName(h)[|h.bytes|..], ".ls")
  {
  }

  /** The first sweep looks at the names that end in `.narinfo` or `.ls`, and no others. */
  lemma EntryNamesAreSpelled(name: Bytes)
    ensures IsEntryName(name) <==>
            exists stem: Bytes, ext: Bytes :: name == stem + ext && (Spells(ext, ".narinfo") || Spells(ext, ".ls"))
  {
    if EndsWith(name, NARINFO_EXT) {
      assert name == name[..|name| - 8] + NARINFO_EXT;
    } else if EndsWith(name, LS_EXT) {
      assert name == name[..|name| - 3] + LS_EXT;
    }
    if stem: Bytes, ext: Bytes :| name == stem + ext && (Spells(ext, ".narinfo") || Spells(ext, ".ls")) {
      assert ext == NARINFO_EXT || ext == LS_EXT;
      assert name[|stem|..] == ext;
    }
  }

  datatype Level = TopLevel | NarLevel

  /** An attempt to remove a file. */
  datatype Removal = Removal(level: Level, name: Bytes, ok: bool)

  /** What has befallen the file system: `log`, all removals attempted, in order; `cuts`, how often
      a sweep was cut short, by a crash or a directory or entry that could not be read; `faults`, how
      many cache files could not be written. */
  class Disk {
    ghost var log: seq<Removal>
    ghost var cuts: nat
    ghost var faults: nat

    constructor ()
      ensures log == [] && cuts == 0 && faults == 0
    {
      log, cuts, faults := [], 0, 0;
    }

    /** Whether a sweep goes on, or can read the entry it has come to. */
    method GoesOn() returns (ok: bool)
      modifies this`cuts
      ensures cuts == old(cuts) + if ok then 0 else 1
    {
      ok := *;
      cuts := if ok then cuts else cuts + 1;
    }
  }

  /** The last attempt to remove `name` has failed, at or behind `from`. */
  ghost predicate Stuck(log: seq<Removal>, from: nat, level: Level, name: Bytes) {
    exists i :: from <= i < |log| && log[i] == Removal(level, name, false)
  }

  /** One directory level. What a file holds matters for narinfos only. */
  class Directory {
    var files: map<Bytes, File>
    const level: Level
    const disk: Disk

    constructor (initial: map<Bytes, File>, level: Level, disk: Disk)
      ensures files == initial && this.level == level && this.disk == disk
    {
      files, this.level, this.disk := initial, level, disk;
    }

    /** `remove_file`, which may fail. An entry that cannot be read counts as one that cannot be
        removed. */
    method RemoveFile(name: Bytes) returns (ok: bool)
      requires name in files
      modifies this, disk`log
      ensures files == if ok then old(files) - {name} else old(files)
      ensures disk.log == old(disk.log) + [Removal(level, name, ok)]
    {
      ok := *;
      if ok {
        files := files - {name};
      }
      disk.log := disk.log + [Removal(level, name, ok)];
    }

    /** `sweep`. It may be cut short at any point, an entry that cannot be read is passed over, and
        any removal may fail; `complete` says that none of this happened. Without such a cut,
        whatever should have gone and is still there could not be removed; and it attempts to
        remove nothing else. */
    method Sweep(dryRun: bool, shouldDelete: Bytes -> bool) returns (complete: bool)
      modifies this, disk`log, disk`cuts
      ensures Subfiles(files, old(files))
      ensures forall n :: n in old(files) && !shouldDelete(n) ==> n in files
      ensures dryRun ==> files == old(files) && disk.log == old(disk.log)
      ensures complete && !dryRun ==> files == map n | n in old(files) && !shouldDelete(n) :: old(files)[n]
      ensures old(disk.log) <= disk.log && disk.cuts >= old(disk.cuts)
      ensures forall i :: |old(disk.log)| <= i < |disk.log| ==> disk.log[i].level == level && shouldDelete(disk.log[i].name)
      ensures !dryRun && disk.cuts == old(disk.cuts) ==>
                forall n :: n in files && shouldDelete(n) ==> Stuck(disk.log, |old(disk.log)|, level, n)
      ensures disk.cuts == old(disk.cuts) && (forall i :: |old(disk.log)| <= i < |disk.log| ==> disk.log[i].ok) ==> complete
    {
      complete := true;
      var entries := files.Keys;
      while entries != {}
        invariant entries <= old(files).Keys
        invariant forall n :: n in files ==> n in old(files) && files[n] == old(files)[n]
        invariant forall n :: n in old(files) && (!shouldDelete(n) || n in entries) ==> n in files
        invariant dryRun ==> files == old(files) && disk.log == old(disk.log)
        invariant complete && !dryRun ==> forall n :: n in files && n !in entries ==> !shouldDelete(n)
        invariant old(disk.log) <= disk.log && disk.cuts >= old(disk.cuts)
        invariant forall i :: |old(disk.log)| <= i < |disk.log| ==> disk.log[i].level == level && shouldDelete(disk.log[i].name)
        invariant !dryRun && disk.cuts == old(disk.cuts) ==>
                    forall n :: n in files && n !in entries && shouldDelete(n) ==> Stuck(disk.log, |old(disk.log)|, level, n)
        invariant !complete && disk.cuts == old(disk.cuts) ==> exists i :: |old(disk.log)| <= i < |disk.log| && !disk.log[i].ok
        decreases entries
      {
        var goesOn := disk.GoesOn();
        if !goesOn {
          return false;
        }
        var name :| name in entries;
        entries := entries - {name};
        var readable := disk.GoesOn();
        if !readable {
          complete := false;
          continue;
        }
        if !shouldDelete(name) {
          continue;
        }
        if !dryRun {
          ghost var log := disk.log;
          var removed := RemoveFile(name);
          StuckStays(log, Removal(level, name, removed), |old(disk.log)|, level);
          complete := complete && removed;
        }
      }
    }
  }

  lemma StuckStays(log: seq<Removal>, r: Removal, from: nat, level: Level)
    requires from <= |log|
    ensures forall n :: Stuck(log, from, level, n) ==> Stuck(log + [r], from, level, n)
    ensures r.level == level && !r.ok ==> Stuck(log + [r], from, level, r.name)
    ensures forall i :: from <= i < |log| && !log[i].ok ==> !(log + [r])[i].ok
    ensures !r.ok ==> !(log + [r])[|log|].ok
  {
    forall n | Stuck(log, from, level, n) ensures Stuck(log + [r], from, level, n) {
      var i :| from <= i < |log| && log[i] == Removal(level, n, false);
      assert (log + [r])[i] == log[i];
    }
    if r.level == level && !r.ok {
      assert (log + [r])[|log|] == Removal(level, r.name, false);
    }
  }

  // ----- Keep-sets -----

  function KeepInfos(infos: seq<Entry>): set<Bytes> {
    (set i | 0 <= i < |infos| :: NarinfoName(infos[i].0)) + (set i | 0 <= i < |infos| :: ListingName(infos[i].0))
  }

  function KeepArchives(infos: seq<Entry>): set<Bytes> {
    set i | 0 <= i < |infos| && infos[i].1.Archive().Some? :: infos[i].1.Archive().value
  }

  method KeepSets(infos: seq<Entry>) returns (keepInfos: set<Bytes>, keepArchives: set<Bytes>)
    ensures keepInfos == KeepInfos(infos) && keepArchives == KeepArchives(infos)
  {
    keepInfos, keepArchives := {}, {};
    for n := 0 to |infos|
      invariant keepInfos == KeepInfos(infos[..n]) && keepArchives == KeepArchives(infos[..n])
    {
      KeepOneMore(infos, n);
      var (hash, info) := infos[n];
      var name := info.Archive();
      if name.Some? {
        keepArchives := keepArchives + {name.value};
      }
      keepInfos := keepInfos + {NarinfoName(hash)};
      keepInfos := keepInfos + {ListingName(hash)};
    }
    assert infos[..|infos|] == infos;
  }

  /** By name: the keep-sets hold the narinfo and the listing of each entry, and for a URL
      `dir/name` the archive `name`. */
  lemma KeepSetsByName(infos: seq<Entry>, i: nat, dir: Bytes, name: Bytes)
    requires i < |infos| && SLASH !in name && name != [] && name != [DOT] && name != [DOT, DOT]
    ensures infos[i].0.bytes + NARINFO_EXT in KeepInfos(infos) && infos[i].0.bytes + LS_EXT in KeepInfos(infos)
    ensures infos[i].1.url == Some(dir + [SLASH] + name) || infos[i].1.url == Some(name) ==> name in KeepArchives(infos)
  {
    assert NarinfoName(infos[i].0) in KeepInfos(infos) && ListingName(infos[i].0) in KeepInfos(infos);
    ArchiveIsBaseName(infos[i].1, dir, name);
  }

  lemma KeepOneMore(infos: seq<Entry>, n: nat)
    requires n < |infos|
    ensures KeepInfos(infos[..n + 1]) == KeepInfos(infos[..n]) + {NarinfoName(infos[n].0)} + {ListingName(infos[n].0)}
    ensures KeepArchives(infos[..n + 1]) ==
            KeepArchives(infos[..n]) + (if infos[n].1.Archive().Some? then {infos[n].1.Archive().value} else {})
  {
    var a, b := infos[..n], infos[..n + 1];
    assert b == a + [infos[n]];
    assert forall i :: 0 <= i < n ==> b[i] == a[i];
    assert b[n] == infos[n];
  }

  // ----- What a prune sees -----

  function FileOf(files: map<Bytes, File>, h: StoreHash): File {
    if NarinfoName(h) in files then files[NarinfoName(h)] else Missing
  }

  function EnvOf(files: map<Bytes, File>, closures: ClosureCache.Map): Env {
    Env(h => FileOf(files, h), closures)
  }

  ghost function Seen(files: map<Bytes, File>, closures: ClosureCache.Map): Lookup {
    Look(EnvOf(files, closures))
  }

  /** A cached entry is never wrong about a file that exists. */
  ghost predicate CacheTruthful(files: map<Bytes, File>, closures: ClosureCache.Map) {
    forall h :: h in closures && !FileOf(files, h).Missing? ==> FileOf(files, h) == Readable(closures[h])
  }

  lemma EmptyCacheIsTruthful(files: map<Bytes, File>)
    ensures CacheTruthful(files, map[])
  {
  }

  lemma CacheMakesNoDifference(files: map<Bytes, File>, closures: ClosureCache.Map)
    requires CacheTruthful(files, closures)
    ensures forall h :: Seen(files, closures)(h) == Seen(files, map[])(h)
  {
  }

  ghost function HashesIn(files: map<Bytes, File>): set<StoreHash> {
    set n | n in files && EndsWith(n, NARINFO_EXT) :: StoreHash(n[..|n| - |NARINFO_EXT|])
  }

  lemma OnDiskByName(files: map<Bytes, File>, h: StoreHash)
    ensures h in HashesIn(files) <==> NarinfoName(h) in files
  {
    if NarinfoName(h) in files {
      NamesTellHashes(h, h);
      assert NarinfoName(h)[..|h.bytes|] == h.bytes;
    }
    if h in HashesIn(files) {
      var n :| n in files && EndsWith(n, NARINFO_EXT) && h == StoreHash(n[..|n| - |NARINFO_EXT|]);
      assert n == NarinfoName(h);
    }
  }

  /** Every hash a scan can come across: finitely many. */
  ghost function UniverseOf(files: map<Bytes, File>, closures: ClosureCache.Map, roots: set<StoreHash>): set<StoreHash> {
    var look := Seen(files, closures);
    roots + set g, h | g in HashesIn(files) && look(g).Some? && h in look(g).value.Successors() :: h
  }

  lemma UniverseIsClosed(files: map<Bytes, File>, closures: ClosureCache.Map, roots: set<StoreHash>)
    ensures Universe(EnvOf(files, closures), UniverseOf(files, closures, roots))
    ensures roots <= UniverseOf(files, closures, roots)
  {
    forall g | Seen(files, closures)(g).Some? ensures g in HashesIn(files) {
      OnDiskByName(files, g);
    }
  }

  /** The names the first sweep must leave. */
  ghost predicate KeptName(look: Lookup, roots: set<StoreHash>, name: Bytes) {
    exists h :: InClosure(look, roots, h) && (name == NarinfoName(h) || name == ListingName(h))
  }

  ghost predicate KeptNar(look: Lookup, roots: set<StoreHash>, name: Bytes) {
    exists h :: InClosure(look, roots, h) && look(h).value.Archive() == Some(name)
  }

  /** `infos` is what a scan returns. */
  ghost predicate IsScan(look: Lookup, roots: set<StoreHash>, infos: seq<Entry>) {
    && (forall i :: 0 <= i < |infos| ==> look(infos[i].0) == Some(infos[i].1))
    && (forall h :: (exists i :: 0 <= i < |infos| && infos[i].0 == h) <==> InClosure(look, roots, h))
  }

  lemma KeepSetsMeaning(look: Lookup, roots: set<StoreHash>, infos: seq<Entry>)
    requires IsScan(look, roots, infos)
    ensures forall name :: name in KeepInfos(infos) <==> KeptName(look, roots, name)
    ensures forall name :: name in KeepArchives(infos) <==> KeptNar(look, roots, name)
  {
    forall name | KeptName(look, roots, name) ensures name in KeepInfos(infos) {
      var h :| InClosure(look, roots, h) && (name == NarinfoName(h) || name == ListingName(h));
      var i :| 0 <= i < |infos| && infos[i].0 == h;
    }
    forall name | KeptNar(look, roots, name) ensures name in KeepArchives(infos) {
      var h :| InClosure(look, roots, h) && look(h).value.Archive() == Some(name);
      var i :| 0 <= i < |infos| && infos[i].0 == h;
    }
    forall i | 0 <= i < |infos| ensures InClosure(look, roots, infos[i].0) {
    }
  }

  ghost predicate Subfiles(files': map<Bytes, File>, files: map<Bytes, File>) {
    forall n :: n in files' ==> n in files && files'[n] == files[n]
  }

  /** Exactly the entries of the closure are left, and everything that is no entry. */
  ghost predicate PrunedTop(look: Lookup, roots: set<StoreHash>, files: map<Bytes, File>, files': map<Bytes, File>) {
    && Subfiles(files', files)
    && forall n :: n in files ==> (n in files' <==> !IsEntryName(n) || KeptName(look, roots, n))
  }

  ghost predicate PrunedNar(look: Lookup, roots: set<StoreHash>, files: map<Bytes, File>, files': map<Bytes, File>) {
    && Subfiles(files', files)
    && forall n :: n in files ==> (n in files' <==> KeptNar(look, roots, n))
  }

  // ----- The run -----

  /** What a run attempts to remove, from `from` on: names of no kept file, first narinfos and
      listings, then archives. */
  ghost predicate Attempts(look: Lookup, roots: set<StoreHash>, log: seq<Removal>, from: nat) {
    && (forall i :: from <= i < |log| && log[i].level.TopLevel? ==> IsEntryName(log[i].name) && !KeptName(look, roots, log[i].name))
    && (forall i :: from <= i < |log| && log[i].level.NarLevel? ==> !KeptNar(look, roots, log[i].name))
    && (forall i, j :: from <= i < j < |log| && log[i].level.NarLevel? ==> log[j].level.NarLevel?)
  }

  /** What no closure keeps and is still there could not be removed. */
  ghost predicate OnlyStuckLeft(look: Lookup, roots: set<StoreHash>, log: seq<Removal>, from: nat,
                                files: map<Bytes, File>, nars: map<Bytes, File>) {
    && (forall n :: n in files && IsEntryName(n) && !KeptName(look, roots, n) ==> Stuck(log, from, TopLevel, n))
    && (forall n :: n in nars && !KeptNar(look, roots, n) ==> Stuck(log, from, NarLevel, n))
  }

  ghost predicate AllRemoved(log: seq<Removal>, from: nat) {
    forall i :: from <= i < |log| ==> log[i].ok
  }

  lemma StuckFurther(log: seq<Removal>, log': seq<Removal>, from: nat, level: Level)
    requires from <= |log| && log <= log'
    ensures forall n :: Stuck(log, from, level, n) ==> Stuck(log', from, level, n)
    ensures forall n :: Stuck(log', |log|, level, n) ==> Stuck(log', from, level, n)
  {
    forall n | Stuck(log, from, level, n) ensures Stuck(log', from, level, n) {
      var i :| from <= i < |log| && log[i] == Removal(level, n, false);
      assert log'[i] == log[i];
    }
  }

  class Cache {
    const top: Directory
    const nar: Directory
    var closureFile: Option<Bytes>   // .kiss-cache.closures

    constructor (top: Directory, nar: Directory, closureFile: Option<Bytes>)
      ensures this.top == top && this.nar == nar && this.closureFile == closureFile
    {
      this.top, this.nar, this.closureFile := top, nar, closureFile;
    }

    predicate Valid() {
      top != nar && top.level == TopLevel && nar.level == NarLevel && top.disk == nar.disk
    }

    ghost function Closures(): ClosureCache.Map
      reads this
    {
      if closureFile.Some? && ClosureCache.Decode(closureFile.value).Some? then ClosureCache.Decode(closureFile.value).value
      else map[]
    }

    /** What a scan would find for each hash now. */
    ghost function Now(): Lookup
      reads this, top
    {
      Seen(top.files, Closures())
    }

    /** `run`, once the locks are held and the roots are known. Whatever fails and wherever it
        stops, no file of a reachable entry goes; and whatever else is left could not be removed,
        unless a sweep was cut short. */
    method Run(roots: set<StoreHash>, workers: nat, dryRun: bool)
      returns (infos: seq<Entry>, infosDone: bool, narsDone: bool)
      requires Valid() && workers > 0
      modifies this, top, nar, top.disk
      ensures IsScan(old(Now()), roots, infos) && ClosureCache.Distinct(infos)
      ensures dryRun ==> top.files == old(top.files) && nar.files == old(nar.files) && closureFile == old(closureFile)
      ensures Subfiles(top.files, old(top.files)) && Subfiles(nar.files, old(nar.files))
      ensures forall n :: n in old(top.files) && (!IsEntryName(n) || KeptName(old(Now()), roots, n)) ==> n in top.files
      ensures forall n :: n in old(nar.files) && KeptNar(old(Now()), roots, n) ==> n in nar.files
      ensures infosDone && !dryRun ==> PrunedTop(old(Now()), roots, old(top.files), top.files)
      ensures narsDone && !dryRun ==> PrunedNar(old(Now()), roots, old(nar.files), nar.files)
      ensures !dryRun ==> closureFile == Some(ClosureCache.Encode(infos)) ||
                          (closureFile == old(closureFile) && top.disk.faults > old(top.disk.faults))
      ensures old(top.disk.log) <= top.disk.log && top.disk.cuts >= old(top.disk.cuts)
      ensures Attempts(old(Now()), roots, top.disk.log, |old(top.disk.log)|)
      ensures !dryRun && top.disk.cuts == old(top.disk.cuts) ==>
                OnlyStuckLeft(old(Now()), roots, top.disk.log, |old(top.disk.log)|, top.files, nar.files)
      ensures top.disk.cuts == old(top.disk.cuts) && AllRemoved(top.disk.log, |old(top.disk.log)|) ==> infosDone && narsDone
    {
      ghost var look := Now();
      var closures := ClosureCache.Load(closureFile);
      infos := ScanRoots(roots, closures, workers);
      if !dryRun {
        SaveClosures(infos);
      }
      var keepInfos, keepArchives := KeepSets(infos);
      KeepSetsMeaning(look, roots, infos);
      infosDone, narsDone := SweepBoth(look, roots, keepInfos, keepArchives, dryRun);
    }

    method SaveClosures(infos: seq<Entry>)
      modifies this, top.disk`faults
      ensures closureFile == Some(ClosureCache.Encode(infos)) ||
              (closureFile == old(closureFile) && top.disk.faults > old(top.disk.faults))
    {
      var cacheFile := new ClosureCache.CacheFile(closureFile);
      var saved := cacheFile.SaveFile(infos);
      closureFile := cacheFile.file;
      top.disk.faults := top.disk.faults + cacheFile.faults;
    }

    method SweepBoth(ghost look: Lookup, ghost roots: set<StoreHash>, keepInfos: set<Bytes>, keepArchives: set<Bytes>, dryRun: bool)
      returns (infosDone: bool, narsDone: bool)
      requires Valid()
      requires forall name :: name in keepInfos <==> KeptName(look, roots, name)
      requires forall name :: name in keepArchives <==> KeptNar(look, roots, name)
      modifies top, nar, top.disk`log, top.disk`cuts
      ensures dryRun ==> top.files == old(top.files) && nar.files == old(nar.files)
      ensures Subfiles(top.files, old(top.files)) && Subfiles(nar.files, old(nar.files))
      ensures forall n :: n in old(top.files) && (!IsEntryName(n) || KeptName(look, roots, n)) ==> n in top.files
      ensures forall n :: n in old(nar.files) && KeptNar(look, roots, n) ==> n in nar.files
      ensures infosDone && !dryRun ==> PrunedTop(look, roots, old(top.files), top.files)
      ensures narsDone && !dryRun ==> PrunedNar(look, roots, old(nar.files), nar.files)
      ensures old(top.disk.log) <= top.disk.log && top.disk.cuts >= old(top.disk.cuts)
      ensures Attempts(look, roots, top.disk.log, |old(top.disk.log)|)
      ensures !dryRun && top.disk.cuts == old(top.disk.cuts) ==>
                OnlyStuckLeft(look, roots, top.disk.log, |old(top.disk.log)|, top.files, nar.files)
      ensures top.disk.cuts == old(top.disk.cuts) && AllRemoved(top.disk.log, |old(top.disk.log)|) ==> infosDone && narsDone
    {
      ghost var from := |top.disk.log|;
      infosDone := top.Sweep(dryRun, n => IsEntryName(n) && n !in keepInfos);
      ghost var log := top.disk.log;
      narsDone := nar.Sweep(dryRun, n => n !in keepArchives);
      StuckFurther(log, top.disk.log, from, TopLevel);
      StuckFurther(log, top.disk.log, from, NarLevel);
      assert forall i :: from <= i < |log| ==> top.disk.log[i] == log[i];
    }

    method ScanRoots(roots: set<StoreHash>, closures: ClosureCache.Map, workers: nat) returns (infos: seq<Entry>)
      requires workers > 0
      ensures IsScan(Seen(top.files, closures), roots, infos) && ClosureCache.Distinct(infos)
    {
      var scanner := new Scanner.DependencyScanner();
      var todo := roots;
      while todo != {}
        invariant fresh(scanner) && scanner.Valid() && todo <= roots && scanner.seen == roots - todo
        decreases todo
      {
        var hash :| hash in todo;
        todo := todo - {hash};
        scanner.Enqueue(hash);
      }
      assert scanner.seen == roots;
      var files := top.files;
      UniverseIsClosed(files, closures, roots);
      infos := scanner.Scan(EnvOf(files, closures), workers, UniverseOf(files, closures, roots));
    }
  }

  // ----- What a run leaves -----

  lemma KeptNarinfo(look: Lookup, roots: set<StoreHash>, h: StoreHash)
    ensures KeptName(look, roots, NarinfoName(h)) <==> InClosure(look, roots, h)
  {
    if KeptName(look, roots, NarinfoName(h)) {
      var g :| InClosure(look, roots, g) && (NarinfoName(h) == NarinfoName(g) || NarinfoName(h) == ListingName(g));
      NamesTellHashes(h, g);
    }
  }

  /** A reachable narinfo is kept if and only if it is there and cached or readable: one that is
      there but can be neither read nor looked up is deleted. */
  lemma UnreadableIsSwept(files: map<Bytes, File>, closures: ClosureCache.Map, roots: set<StoreHash>, h: StoreHash)
    requires Reach(ScanEdges(Seen(files, closures)), roots, h)
    ensures KeptName(Seen(files, closures), roots, NarinfoName(h)) <==>
            !FileOf(files, h).Missing? && (h in closures || FileOf(files, h).Readable?)
  {
    KeptNarinfo(Seen(files, closures), roots, h);
  }

  /** A run with a truthful closure cache keeps what a run without one keeps. */
  lemma SamePruneWithoutCache(files: map<Bytes, File>, closures: ClosureCache.Map, roots: set<StoreHash>)
    requires CacheTruthful(files, closures)
    ensures forall n :: KeptName(Seen(files, closures), roots, n) <==> KeptName(Seen(files, map[]), roots, n)
    ensures forall n :: KeptNar(Seen(files, closures), roots, n) <==> KeptNar(Seen(files, map[]), roots, n)
  {
    CacheMakesNoDifference(files, closures);
    SameLookupSameClosure(Seen(files, closures), Seen(files, map[]), roots);
  }

  /** The cached entries whose narinfo is still there. */
  ghost function Remaining(files: map<Bytes, File>, closures: ClosureCache.Map): ClosureCache.Map {
    map h | h in closures && !FileOf(files, h).Missing? :: closures[h]
  }

  /** A cached entry whose narinfo is gone is worth nothing: a run finds, and so saves and keeps,
      what it would without that entry, and never the entry's own hash. */
  lemma GoneMeansGone(files: map<Bytes, File>, closures: ClosureCache.Map, roots: set<StoreHash>, infos: seq<Entry>)
    ensures IsScan(Seen(files, closures), roots, infos) <==> IsScan(Seen(files, Remaining(files, closures)), roots, infos)
    ensures IsScan(Seen(files, closures), roots, infos) ==>
              forall i :: 0 <= i < |infos| ==> NarinfoName(infos[i].0) in files
  {
    var look, look' := Seen(files, closures), Seen(files, Remaining(files, closures));
    assert forall h :: look(h) == look'(h);
    SameLookupSameClosure(look, look', roots);
  }

  lemma TruthfulAfterRemovals(files: map<Bytes, File>, files': map<Bytes, File>, closures: ClosureCache.Map)
    requires CacheTruthful(files, closures) && Subfiles(files', files)
    ensures CacheTruthful(files', closures)
  {
  }

  /** The cache file a run writes tells the truth about what the run leaves if and only if the
      entries left fit the codec. */
  lemma SavedCacheIsTruthful(files: map<Bytes, File>, files': map<Bytes, File>, closures: ClosureCache.Map,
                             roots: set<StoreHash>, infos: seq<Entry>)
    requires CacheTruthful(files, closures) && Subfiles(files', files)
    requires IsScan(Seen(files, closures), roots, infos) && ClosureCache.Distinct(infos)
    requires forall e :: e in infos ==> ClosureCache.ValidEntry(e)
    ensures ClosureCache.Decode(ClosureCache.Encode(infos)).Some?
    ensures CacheTruthful(files', ClosureCache.Decode(ClosureCache.Encode(infos)).value) <==> LeftFit(files', infos)
  {
    ClosureCache.LoadedMapIsSavedList(infos);
    var m := ClosureCache.Decode(ClosureCache.Encode(infos)).value;
    forall i | 0 <= i < |infos| && !FileOf(files', infos[i].0).Missing?
      ensures FileOf(files', infos[i].0) == Readable(m[infos[i].0]) <==> ClosureCache.Fits(infos[i].1)
    {
      ClosureCache.StoredIsIdentity(infos[i].1);
      assert FileOf(files', infos[i].0) == Readable(infos[i].1);
    }
  }

  /** What is left of the scanned entries fits the codec. */
  ghost predicate LeftFit(files: map<Bytes, File>, infos: seq<Entry>) {
    forall i :: 0 <= i < |infos| && !FileOf(files, infos[i].0).Missing? ==> ClosureCache.Fits(infos[i].1)
  }

  /** A reachable archive whose URL is too long for the codec: a prune keeps it, the next one,
      with the cache file of the first, deletes it. */
  lemma LongUrlLosesArchive(h: StoreHash, info: NarInfo)
    requires h.Valid() && info.Valid() && info.Archive().Some? && |info.url.value| > ClosureCache.U16_MAX
    ensures var files, infos := Alone(h, info), [(h, info)];
            && IsScan(Seen(files, map[]), {h}, infos) && KeptNar(Seen(files, map[]), {h}, info.Archive().value)
            && ClosureCache.Decode(ClosureCache.Encode(infos)).Some?
            && forall n :: !KeptNar(Seen(files, ClosureCache.Decode(ClosureCache.Encode(infos)).value), {h}, n)
  {
    var infos: seq<Entry> := [(h, info)];
    AloneClosure(h, info, map[]);
    ClosureCache.LoadedMapIsSavedList(infos);
    var m := ClosureCache.Decode(ClosureCache.Encode(infos)).value;
    assert infos[0].0 in m && m[infos[0].0] == ClosureCache.Stored(info);
    AloneClosure(h, info, m);
    assert Seen(Alone(h, info), m)(h) == Some(ClosureCache.Stored(info));
  }

  function Alone(h: StoreHash, info: NarInfo): map<Bytes, File> {
    map[NarinfoName(h) := Readable(info)]
  }

  lemma AloneClosure(h: StoreHash, info: NarInfo, closures: ClosureCache.Map)
    ensures forall g :: InClosure(Seen(Alone(h, info), closures), {h}, g) <==> g == h
  {
    var files := Alone(h, info);
    ReachRoot(ScanEdges(Seen(files, closures)), {h}, h);
    forall g | !FileOf(files, g).Missing? ensures g == h {
      NamesTellHashes(g, h);
    }
  }

  // ----- Across runs -----

  datatype Pass =
    | Pruned(roots: set<StoreHash>, infos: seq<Entry>, saved: bool)
    | Uploaded(h: StoreHash, info: NarInfo)

  /** One prune, complete or not, whose cache file was written or not; or one upload of a
      narinfo the cache file does not know, or knows as it is. */
  ghost predicate Passes(files: map<Bytes, File>, closures: ClosureCache.Map, x: Pass,
                         files': map<Bytes, File>, closures': ClosureCache.Map)
  {
    match x
    case Pruned(roots, infos, saved) =>
      && IsScan(Seen(files, closures), roots, infos) && ClosureCache.Distinct(infos)
      && (forall e :: e in infos ==> ClosureCache.ValidEntry(e)) && (saved ==> LeftFit(files', infos))
      && Subfiles(files', files)
      && (if saved then ClosureCache.Decode(ClosureCache.Encode(infos)) == Some(closures') else closures' == closures)
    case Uploaded(h, info) =>
      && (h in closures ==> closures[h] == info)
      && closures' == closures && files' == files[NarinfoName(h) := Readable(info)]
  }

  lemma TruthfulAfterUpload(files: map<Bytes, File>, closures: ClosureCache.Map, h: StoreHash, info: NarInfo)
    requires CacheTruthful(files, closures) && (h in closures ==> closures[h] == info)
    ensures CacheTruthful(files[NarinfoName(h) := Readable(info)], closures)
  {
    forall g | g in closures && g != h ensures NarinfoName(g) != NarinfoName(h) {
      NamesTellHashes(g, h);
    }
  }

  lemma {:induction false} TruthfulAcrossRuns(files: seq<map<Bytes, File>>, closures: seq<ClosureCache.Map>, xs: seq<Pass>, i: nat)
    requires |files| == |closures| == |xs| + 1 && i <= |xs| && CacheTruthful(files[0], closures[0])
    requires forall j :: 0 <= j < |xs| ==> Passes(files[j], closures[j], xs[j], files[j + 1], closures[j + 1])
    ensures CacheTruthful(files[i], closures[i])
    decreases i
  {
    if i == 0 {
    } else {
      TruthfulAcrossRuns(files, closures, xs, i - 1);
      assert Passes(files[i - 1], closures[i - 1], xs[i - 1], files[i], closures[i]);
      match xs[i - 1]
      case Pruned(roots, infos, saved) =>
        TruthfulAfterRemovals(files[i - 1], files[i], closures[i - 1]);
        if saved {
          SavedCacheIsTruthful(files[i - 1], files[i], closures[i - 1], roots, infos);
        }
      case Uploaded(h, info) => TruthfulAfterUpload(files[i - 1], closures[i - 1], h, info);
    }
  }

  /** Through any history of prunes and uploads the closure cache never changes what a prune keeps. */
  lemma CacheNeverMatters(files: seq<map<Bytes, File>>, closures: seq<ClosureCache.Map>, xs: seq<Pass>, i: nat, roots: set<StoreHash>)
    requires |files| == |closures| == |xs| + 1 && i <= |xs| && CacheTruthful(files[0], closures[0])
    requires forall j :: 0 <= j < |xs| ==> Passes(files[j], closures[j], xs[j], files[j + 1], closures[j + 1])
    ensures forall n :: KeptName(Seen(files[i], closures[i]), roots, n) <==> KeptName(Seen(files[i], map[]), roots, n)
    ensures forall n :: KeptNar(Seen(files[i], closures[i]), roots, n) <==> KeptNar(Seen(files[i], map[]), roots, n)
  {
    TruthfulAcrossRuns(files, closures, xs, i);
    SamePruneWithoutCache(files[i], closures[i], roots);
  }

  /** Restricting a cache to a closure does not change the closure. */
  lemma ClosureOfClosure(look: Lookup, look': Lookup, roots: set<StoreHash>)
    requires forall h :: look'(h) == if InClosure(look, roots, h) then look(h) else None
    ensures forall h :: InClosure(look', roots, h) <==> InClosure(look, roots, h)
  {
    ReachMonotone(ScanEdges(look'), roots, ScanEdges(look), roots);
    ReachMonotone(ScanEdges(look), roots, ScanEdges(look'), roots);
  }

  /** What the second of two runs finds in the cache file: what the first one found there, or what
      the first one has saved. */
  ghost predicate Handed(closures: ClosureCache.Map, infos: seq<Entry>, closures': ClosureCache.Map) {
    || closures' == closures
    || (&& (forall e :: e in infos ==> ClosureCache.ValidEntry(e) && ClosureCache.Fits(e.1))
        && ClosureCache.Decode(ClosureCache.Encode(infos)) == Some(closures'))
  }

  /** A kept hash is seen as before. */
  lemma SeenAgain(files: map<Bytes, File>, closures: ClosureCache.Map, infos: seq<Entry>, files': map<Bytes, File>,
                  closures': ClosureCache.Map, roots: set<StoreHash>, h: StoreHash)
    requires IsScan(Seen(files, closures), roots, infos) && ClosureCache.Distinct(infos) && Handed(closures, infos, closures')
    requires PrunedTop(Seen(files, closures), roots, files, files')
    ensures Seen(files', closures')(h) == if InClosure(Seen(files, closures), roots, h) then Seen(files, closures)(h) else None
  {
    var look := Seen(files, closures);
    KeptNarinfo(look, roots, h);
    NamesTellHashes(h, h);
    if closures' != closures {
      ClosureCache.LoadedMapIsSavedList(infos);
      if InClosure(look, roots, h) {
        var i :| 0 <= i < |infos| && infos[i].0 == h;
        assert infos[i] in infos && closures'[h] == infos[i].1;
      }
    }
  }

  /** Whatever the closure cache says, right or wrong, a second scan after a complete first pass
      finds the same closure with the same metadata. */
  lemma SecondScan(files: map<Bytes, File>, closures: ClosureCache.Map, infos: seq<Entry>, files': map<Bytes, File>,
                   closures': ClosureCache.Map, roots: set<StoreHash>)
    requires IsScan(Seen(files, closures), roots, infos) && ClosureCache.Distinct(infos) && Handed(closures, infos, closures')
    requires PrunedTop(Seen(files, closures), roots, files, files')
    ensures var look, look' := Seen(files, closures), Seen(files', closures');
            forall h :: && (InClosure(look', roots, h) <==> InClosure(look, roots, h))
                        && (InClosure(look, roots, h) ==> look'(h) == look(h))
  {
    var look, look' := Seen(files, closures), Seen(files', closures');
    forall h ensures look'(h) == if InClosure(look, roots, h) then look(h) else None {
      SeenAgain(files, closures, infos, files', closures', roots, h);
    }
    ClosureOfClosure(look, look', roots);
  }

  /** What any run does, complete or not: it only removes files, and none that is kept. */
  ghost predicate Spares(look: Lookup, roots: set<StoreHash>, files: map<Bytes, File>, nars: map<Bytes, File>,
                         files': map<Bytes, File>, nars': map<Bytes, File>)
  {
    && Subfiles(files', files) && Subfiles(nars', nars)
    && (forall n :: n in files && (!IsEntryName(n) || KeptName(look, roots, n)) ==> n in files')
    && (forall n :: n in nars && KeptNar(look, roots, n) ==> n in nars')
  }

  lemma NothingToPrune(look: Lookup, roots: set<StoreHash>, files: map<Bytes, File>, nars: map<Bytes, File>,
                       files': map<Bytes, File>, nars': map<Bytes, File>)
    requires Spares(look, roots, files, nars, files', nars')
    requires forall n :: n in files && IsEntryName(n) ==> KeptName(look, roots, n)
    requires forall n :: n in nars ==> KeptNar(look, roots, n)
    ensures files' == files && nars' == nars
  {
  }

  lemma SameKept(look: Lookup, look': Lookup, roots: set<StoreHash>)
    requires forall h :: InClosure(look', roots, h) <==> InClosure(look, roots, h)
    requires forall h :: InClosure(look, roots, h) ==> look'(h) == look(h)
    ensures forall n :: KeptName(look', roots, n) <==> KeptName(look, roots, n)
    ensures forall n :: KeptNar(look', roots, n) <==> KeptNar(look, roots, n)
  {
    forall n ensures KeptNar(look', roots, n) <==> KeptNar(look, roots, n) {
      if h :| InClosure(look', roots, h) && look'(h).value.Archive() == Some(n) {
        assert InClosure(look, roots, h) && look'(h) == look(h);
      }
      if h :| InClosure(look, roots, h) && look(h).value.Archive() == Some(n) {
        assert InClosure(look', roots, h) && look'(h) == look(h);
      }
    }
  }

  /** After a complete run a second one with the same roots, however it ends, finds the same closure
      and deletes nothing, even if the closure cache has been wrong from the start. */
  lemma SecondRunDeletesNothing(files: map<Bytes, File>, nars: map<Bytes, File>, closures: ClosureCache.Map, infos: seq<Entry>,
                                files': map<Bytes, File>, nars': map<Bytes, File>, closures': ClosureCache.Map,
                                files'': map<Bytes, File>, nars'': map<Bytes, File>, roots: set<StoreHash>)
    requires IsScan(Seen(files, closures), roots, infos) && ClosureCache.Distinct(infos) && Handed(closures, infos, closures')
    requires PrunedTop(Seen(files, closures), roots, files, files') && PrunedNar(Seen(files, closures), roots, nars, nars')
    requires Spares(Seen(files', closures'), roots, files', nars', files'', nars'')
    ensures forall h :: InClosure(Seen(files', closures'), roots, h) <==> InClosure(Seen(files, closures), roots, h)
    ensures files'' == files' && nars'' == nars'
  {
    SecondScan(files, closures, infos, files', closures', roots);
    var look, look' := Seen(files, closures), Seen(files', closures');
    SameKept(look, look', roots);
    NothingToPrune(look', roots, files', nars', files'', nars'');
  }

  /** Two runs in a row on the real cache file. `done` says that no removal of the first one failed,
      `fit` that what it saved fits the codec: then the second run, however it ends, changes nothing
      but that file. */
  method RunTwice(cache: Cache, roots: set<StoreHash>, workers: nat)
    returns (first: seq<Entry>, second: seq<Entry>, done: bool, ghost fit: bool, ghost top: map<Bytes, File>, ghost nar: map<Bytes, File>)
    requires cache.Valid() && workers > 0
    modifies cache, cache.top, cache.nar, cache.top.disk
    ensures fit <==> forall e :: e in first ==> ClosureCache.ValidEntry(e) && ClosureCache.Fits(e.1)
    ensures done ==> PrunedTop(old(cache.Now()), roots, old(cache.top.files), top)
    ensures done ==> PrunedNar(old(cache.Now()), roots, old(cache.nar.files), nar)
    ensures done && fit ==> cache.top.files == top && cache.nar.files == nar
    ensures done && fit ==> forall e :: e in second <==> e in first
  {
    ghost var files, nars, closures := cache.top.files, cache.nar.files, cache.Closures();
    var topDone, narDone;
    first, topDone, narDone := cache.Run(roots, workers, false);
    fit := forall e :: e in first ==> ClosureCache.ValidEntry(e) && ClosureCache.Fits(e.1);
    top, nar := cache.top.files, cache.nar.files;
    ghost var closures' := cache.Closures();
    done := topDone && narDone;
    second, topDone, narDone := cache.Run(roots, workers, false);
    if done && fit {
      ClosureCache.LoadedMapIsSavedList(first);
      SecondRunDeletesNothing(files, nars, closures, first, top, nar, closures', cache.top.files, cache.nar.files, roots);
      SecondScan(files, closures, first, top, closures', roots);
      SameEntries(Seen(files, closures), first, Seen(top, closures'), second, roots);
    }
  }

  lemma SameEntries(look: Lookup, infos: seq<Entry>, look': Lookup, infos': seq<Entry>, roots: set<StoreHash>)
    requires IsScan(look, roots, infos) && IsScan(look', roots, infos')
    requires forall h :: (InClosure(look', roots, h) <==> InClosure(look, roots, h)) && (InClosure(look, roots, h) ==> look'(h) == look(h))
    ensures forall e :: e in infos' <==> e in infos
  {
    forall e | e in infos ensures e in infos' {
      var i :| 0 <= i < |infos| && infos[i] == e;
      assert InClosure(look, roots, e.0);
      var j :| 0 <= j < |infos'| && infos'[j].0 == e.0;
      assert infos'[j] == e;
    }
    forall e | e in infos' ensures e in infos {
      var i :| 0 <= i < |infos'| && infos'[i] == e;
      assert InClosure(look', roots, e.0);
      var j :| 0 <= j < |infos| && infos[j].0 == e.0;
      assert infos[j] == e;
    }
  }

  /** Every readable narinfo has its archive. */
  ghost predicate NarsComplete(files: map<Bytes, File>, nars: map<Bytes, File>) {
    forall h :: FileOf(files, h).Readable? && FileOf(files, h).info.Archive().Some?
      ==> FileOf(files, h).info.Archive().value in nars
  }

  /** Once the first pass is through, no removal of the second takes an archive from a narinfo
      that is left, shared or not. */
  lemma NarsStayComplete(files: map<Bytes, File>, nars: map<Bytes, File>, closures: ClosureCache.Map,
                         files': map<Bytes, File>, nars': map<Bytes, File>, roots: set<StoreHash>)
    requires CacheTruthful(files, closures) && NarsComplete(files, nars)
    requires PrunedTop(Seen(files, closures), roots, files, files')
    requires forall n :: n in nars && KeptNar(Seen(files, closures), roots, n) ==> n in nars'
    ensures NarsComplete(files', nars')
  {
    var look := Seen(files, closures);
    CacheMakesNoDifference(files, closures);
    forall h | FileOf(files', h).Readable? && FileOf(files', h).info.Archive().Some?
      ensures FileOf(files', h).info.Archive().value in nars'
    {
      NamesTellHashes(h, h);
      KeptNarinfo(look, roots, h);
      assert look(h) == Some(FileOf(files', h).info);
      assert KeptNar(look, roots, FileOf(files', h).info.Archive().value);
    }
  }

  /** Some narinfo the run keeps has this archive, or `info` has none. */
  ghost predicate ArchiveKept(look: Lookup, roots: set<StoreHash>, info: NarInfo) {
    info.Archive().Some? ==> KeptNar(look, roots, info.Archive().value)
  }

  /** Whatever the first pass has left: after a full second pass every narinfo has its archive
      if and only if each one left behind shares its archive with a kept one. */
  lemma NarsCompleteIfShared(files: map<Bytes, File>, nars: map<Bytes, File>, closures: ClosureCache.Map,
                             files': map<Bytes, File>, nars': map<Bytes, File>, roots: set<StoreHash>)
    requires CacheTruthful(files, closures) && NarsComplete(files, nars) && Subfiles(files', files)
    requires PrunedNar(Seen(files, closures), roots, nars, nars')
    ensures var look := Seen(files, closures);
            NarsComplete(files', nars') <==>
            forall h :: FileOf(files', h).Readable? && !InClosure(look, roots, h) ==> ArchiveKept(look, roots, FileOf(files', h).info)
  {
    var look := Seen(files, closures);
    CacheMakesNoDifference(files, closures);
    forall h | FileOf(files', h).Readable? && FileOf(files', h).info.Archive().Some?
      ensures var n := FileOf(files', h).info.Archive().value; n in nars' <==> KeptNar(look, roots, n)
      ensures InClosure(look, roots, h) ==> ArchiveKept(look, roots, FileOf(files', h).info)
    {
      assert FileOf(files, h) == FileOf(files', h) && look(h) == Some(FileOf(files', h).info);
    }
  }

  /** That needs the first pass to be complete: a narinfo that could not be removed loses its
      archive to the second pass, since the run goes on after a failed removal. */
  lemma StuckNarinfoLosesArchive(h: StoreHash, info: NarInfo)
    requires info.Archive().Some?
    ensures exists files, nars, nars' ::
              && NarsComplete(files, nars) && FileOf(files, h) == Readable(info)
              && PrunedNar(Seen(files, map[]), {}, nars, nars')
              && !NarsComplete(files, nars')
  {
    var n := info.Archive().value;
    var files: map<Bytes, File> := map[NarinfoName(h) := Readable(info)];
    var nars: map<Bytes, File> := map[n := Unreadable];
    var gone: map<Bytes, File> := map[];
    var none: set<StoreHash> := {};
    var look := Seen(files, map[]);
    ReachLeast(ScanEdges(look), none, iset g | g in none);
    assert forall m :: !KeptNar(look, none, m);
    assert PrunedNar(look, none, nars, gone);
    assert NarsComplete(files, nars);
    assert FileOf(files, h) == Readable(info) && !NarsComplete(files, gone);
  }

  // ----- The protocol's view -----

  ghost function DiskOf(files: map<Bytes, File>): map<StoreHash, NarInfo> {
    map h | h in HashesIn(files) && FileOf(files, h).Readable? :: FileOf(files, h).info
  }

  lemma SeenAsProtocol(files: map<Bytes, File>, closures: ClosureCache.Map, roots: set<StoreHash>)
    requires CacheTruthful(files, closures)
    ensures forall h :: Seen(files, closures)(h) == View(DiskOf(files), closures)(h)
    ensures forall h :: InClosure(Seen(files, closures), roots, h) <==> h in Scan(DiskOf(files), closures, roots)
    ensures forall h :: h in Scan(DiskOf(files), closures, roots) ==>
              Seen(files, closures)(h) == Some(Scan(DiskOf(files), closures, roots)[h])
  {
    var look, disk := Seen(files, closures), DiskOf(files);
    CacheMakesNoDifference(files, closures);
    forall h ensures look(h) == View(disk, closures)(h) {
      OnDiskByName(files, h);
    }
    SameLookupSameClosure(look, View(disk, closures), roots);
  }

  /** The prune on files is the protocol's. A complete first pass takes its disk to what the scan
      keeps; the second pass spares exactly the archives the protocol spares; and the cache file
      holds the protocol's saved entries. */
  lemma SweepRefinesProtocol(files: map<Bytes, File>, closures: ClosureCache.Map, roots: set<StoreHash>,
                             infos: seq<Entry>, files': map<Bytes, File>)
    requires CacheTruthful(files, closures) && PrunedTop(Seen(files, closures), roots, files, files')
    requires IsScan(Seen(files, closures), roots, infos) && ClosureCache.Distinct(infos)
    requires forall e :: e in infos ==> ClosureCache.ValidEntry(e)
    ensures var keep := Scan(DiskOf(files), closures, roots);
            && DiskOf(files') == keep
            && (forall n :: KeptNar(Seen(files, closures), roots, n) <==> CacheProtocol.KeptArchive(keep, n))
            && ClosureCache.Decode(ClosureCache.Encode(infos)) == Some(CacheProtocol.SavedForm(keep))
  {
    SeenAsProtocol(files, closures, roots);
    FirstPassRefines(files, closures, roots, files');
    ScanListsMap(Seen(files, closures), roots, infos, Scan(DiskOf(files), closures, roots));
    SavedMap(infos, Scan(DiskOf(files), closures, roots));
  }

  lemma FirstPassRefines(files: map<Bytes, File>, closures: ClosureCache.Map, roots: set<StoreHash>, files': map<Bytes, File>)
    requires CacheTruthful(files, closures) && PrunedTop(Seen(files, closures), roots, files, files')
    ensures DiskOf(files') == Scan(DiskOf(files), closures, roots)
  {
    var look, disk := Seen(files, closures), DiskOf(files);
    SeenAsProtocol(files, closures, roots);
    CacheMakesNoDifference(files, closures);
    forall h ensures h in DiskOf(files') <==> InClosure(look, roots, h) {
      OnDiskByName(files', h);
      OnDiskByName(files, h);
      KeptNarinfo(look, roots, h);
      NamesTellHashes(h, h);
    }
    forall h | h in DiskOf(files') ensures DiskOf(files')[h] == Scan(disk, closures, roots)[h] {
      OnDiskByName(files', h);
      OnDiskByName(files, h);
    }
  }

  /** `infos` lists `keep`. */
  ghost predicate ListsMap(infos: seq<Entry>, keep: map<StoreHash, NarInfo>) {
    && (forall i :: 0 <= i < |infos| ==> infos[i].0 in keep && keep[infos[i].0] == infos[i].1)
    && (forall h :: h in keep ==> exists i :: 0 <= i < |infos| && infos[i].0 == h)
  }

  lemma ScanListsMap(look: Lookup, roots: set<StoreHash>, infos: seq<Entry>, keep: map<StoreHash, NarInfo>)
    requires IsScan(look, roots, infos)
    requires forall h :: InClosure(look, roots, h) <==> h in keep
    requires forall h :: h in keep ==> look(h) == Some(keep[h])
    ensures ListsMap(infos, keep)
  {
    forall i | 0 <= i < |infos| ensures infos[i].0 in keep && keep[infos[i].0] == infos[i].1 {
      assert InClosure(look, roots, infos[i].0);
    }
  }

  lemma StoredIsSavedForm(infos: seq<Entry>, keep: map<StoreHash, NarInfo>, m: ClosureCache.Map)
    requires ListsMap(infos, keep)
    requires forall h :: h in m <==> exists i :: 0 <= i < |infos| && infos[i].0 == h
    requires forall i :: 0 <= i < |infos| ==> m[infos[i].0] == ClosureCache.Stored(infos[i].1)
    ensures m == CacheProtocol.SavedForm(keep)
  {
    var saved := CacheProtocol.SavedForm(keep);
    forall h | h in m ensures h in saved && m[h] == saved[h] {
      var i :| 0 <= i < |infos| && infos[i].0 == h;
    }
    assert m.Keys == saved.Keys;
  }

  lemma SavedMap(infos: seq<Entry>, keep: map<StoreHash, NarInfo>)
    requires ListsMap(infos, keep) && ClosureCache.Distinct(infos)
    requires forall e :: e in infos ==> ClosureCache.ValidEntry(e)
    ensures ClosureCache.Decode(ClosureCache.Encode(infos)) == Some(CacheProtocol.SavedForm(keep))
  {
    ClosureCache.LoadedMapIsSavedList(infos);
    StoredIsSavedForm(infos, keep, ClosureCache.Decode(ClosureCache.Encode(infos)).value);
  }

  // ----- All of it -----

  method CollectRoots(nodes: seq<GcRoots.Node>) returns (roots: set<StoreHash>)
    ensures roots == GcRoots.CollectAll(nodes)
  {
    var walk := new GcRoots.GcRoots();
    for n := 0 to |nodes|
      invariant fresh(walk) && walk.storeHashes == {} && walk.queue == nodes[..n]
    {
      assert nodes[..n + 1] == nodes[..n] + [nodes[n]];
      walk.Enqueue(nodes[n]);
    }
    assert nodes[..|nodes|] == nodes;
    walk.Scan();
    roots := walk.storeHashes;
  }

  /** The cache file holds the result of a scan. */
  ghost predicate SavesScan(look: Lookup, roots: set<StoreHash>, closureFile: Option<Bytes>) {
    exists infos :: IsScan(look, roots, infos) && ClosureCache.Distinct(infos) && closureFile == Some(ClosureCache.Encode(infos))
  }

  /** What a run that holds its locks has done to the cache. */
  twostate predicate Pruned(cache: Cache, roots: set<StoreHash>, dryRun: bool)
    reads cache, cache.top, cache.nar, cache.top.disk
  {
    var look, log, from := old(cache.Now()), cache.top.disk.log, |old(cache.top.disk.log)|;
    && (dryRun ==> cache.top.files == old(cache.top.files) && cache.nar.files == old(cache.nar.files))
    && (dryRun ==> cache.closureFile == old(cache.closureFile))
    && (!dryRun ==> SavesScan(look, roots, cache.closureFile) ||
                    (cache.closureFile == old(cache.closureFile) && cache.top.disk.faults > old(cache.top.disk.faults)))
    && Spares(look, roots, old(cache.top.files), old(cache.nar.files), cache.top.files, cache.nar.files)
    && Attempts(look, roots, log, from)
    && (!dryRun && cache.top.disk.cuts == old(cache.top.disk.cuts) ==>
          OnlyStuckLeft(look, roots, log, from, cache.top.files, cache.nar.files))
    && (!dryRun && cache.top.disk.cuts == old(cache.top.disk.cuts) && AllRemoved(log, from) ==>
          && PrunedTop(look, roots, old(cache.top.files), cache.top.files)
          && PrunedNar(look, roots, old(cache.nar.files), cache.nar.files))
  }

  /** The part of `run` that needs the locks: the roots are read and the cache swept under them. */
  method PruneLocked(ghost locks: LockFiles.LockDirs, ghost p: LockProtocol.Agent, ghost gcroots: seq<LockProtocol.Dir>,
                     nodes: seq<GcRoots.Node>, cache: Cache, workers: nat, dryRun: bool)
    returns (infosDone: bool, narsDone: bool)
    requires dryRun || locks.AllHeld(p, gcroots)
    requires cache.Valid() && workers > 0
    modifies cache, cache.top, cache.nar, cache.top.disk
    ensures Pruned(cache, GcRoots.CollectAll(nodes), dryRun)
    ensures !dryRun && infosDone ==>
              PrunedTop(old(cache.Now()), GcRoots.CollectAll(nodes), old(cache.top.files), cache.top.files)
    ensures !dryRun && narsDone ==>
              PrunedNar(old(cache.Now()), GcRoots.CollectAll(nodes), old(cache.nar.files), cache.nar.files)
  {
    var roots := CollectRoots(nodes);
    var infos;
    infos, infosDone, narsDone := cache.Run(roots, workers, dryRun);
    assert !dryRun && cache.closureFile == Some(ClosureCache.Encode(infos)) ==>
        SavesScan(old(cache.Now()), GcRoots.CollectAll(nodes), cache.closureFile);
  }

  /** `prune::run` from the locks to the sweeps. `nodes` are the gcroot directories as the walk
      finds them. A run that cannot lock them all has waited its time, changes nothing and leaves
      no lock. */
  method Prune(locks: LockFiles.LockDirs, p: LockProtocol.Agent, gcroots: seq<LockProtocol.Dir>, nodes: seq<GcRoots.Node>,
               cache: Cache, workers: nat, dryRun: bool, lockWait: LockProtocol.Time)
    returns (ran: bool, clean: bool, infosDone: bool, narsDone: bool)
    requires LockProtocol.Inv(locks.s) && p.Pruner? && p !in locks.s.crashed
    requires locks.NoneHeld(p, gcroots) && locks.NoFiles(p, gcroots)
    requires cache.Valid() && workers > 0
    modifies locks, cache, cache.top, cache.nar, cache.top.disk
    ensures LockProtocol.Inv(locks.s)
    ensures locks.NoneHeld(p, gcroots) && (clean ==> locks.NoFiles(p, gcroots))
    ensures locks.faults >= old(locks.faults) && (clean <==> locks.faults == old(locks.faults))
    ensures !ran ==> !dryRun && locks.refusals > old(locks.refusals) && locks.s.now >= old(locks.s.now) + lockWait
    ensures !ran ==> cache.top.files == old(cache.top.files) && cache.nar.files == old(cache.nar.files)
    ensures !ran ==> cache.closureFile == old(cache.closureFile) && cache.top.disk.log == old(cache.top.disk.log)
    ensures ran ==> Pruned(cache, GcRoots.CollectAll(nodes), dryRun)
    ensures ran && !dryRun && infosDone ==>
              PrunedTop(old(cache.Now()), GcRoots.CollectAll(nodes), old(cache.top.files), cache.top.files)
    ensures ran && !dryRun && narsDone ==>
              PrunedNar(old(cache.Now()), GcRoots.CollectAll(nodes), old(cache.nar.files), cache.nar.files)
  {
    clean, infosDone, narsDone := true, false, false;
    if dryRun {
      ran := true;
      infosDone, narsDone := PruneLocked(locks, p, gcroots, nodes, cache, workers, dryRun);
      return;
    }
    var sorted := LockFiles.SortedDirs(gcroots);
    assert forall i :: 0 <= i < |sorted| ==> sorted[i] in gcroots;
    assert forall i :: 0 <= i < |gcroots| ==> gcroots[i] in sorted;
    var tries;
    ran, clean, tries := locks.AcquireAll(p, sorted, lockWait, 5);
    if !ran {
      return;
    }
    infosDone, narsDone := PruneLocked(locks, p, gcroots, nodes, cache, workers, dryRun);
    assert sorted[..|sorted|] == sorted;
    var dropped := locks.DropAll(p, sorted, |sorted|);
    clean := clean && dropped;
  }
}
