/** `src/gcroots.rs`: the walk over the marker tree, and how a marker file is replaced. */
module GcRoots {
  import opened Wrappers
  import opened StoreHashes
  import opened NarInfos
  import opened Utf8Text

  /** What a path turns out to be when it is visited. */
  datatype Node =
    | Missing                        // vanished between readdir and visit
    | File(content: Bytes)
    | BadFile                        // unreadable, or not UTF-8
    | Dir(entries: seq<DirEntry>)
    | BadDir                         // unreadable
    | Special                        // symlinks and the like, not followed
  datatype DirEntry = DirEntry(name: Bytes, node: Node)

  predicate Hidden(name: Bytes) {
    name != [] && name[0] == DOT
  }

  // ----- Marker files -----

  function SpacePrefix(s: Bytes): (n: nat)
    ensures n <= |s|
  {
    if |s| >= 1 && (9 <= s[0] <= 13 || s[0] == SPACE) then 1
    else if |s| >= 2 && s[0] == 0xC2 && (s[1] == 0x85 || s[1] == 0xA0) then 2
    else if |s| >= 3 && IsWideSpace(s[0], s[1], s[2]) then 3
    else 0
  }

  function TrimStart(s: Bytes): Bytes
    decreases |s|
  {
    if SpacePrefix(s) == 0 then s else TrimStart(s[SpacePrefix(s)..])
  }

  /** `StoreHash::from_store_path(line.trim())`. */
  function RootOf(line: Bytes): Option<StoreHash> {
    FromStorePath(TrimEnd(TrimStart(line)))
  }

  function RootsOf(lines: seq<Bytes>): set<StoreHash> {
    set line | line in lines && RootOf(line).Some? :: RootOf(line).value
  }

  function RootsIn(content: Bytes): set<StoreHash> {
    RootsOf(Lines(content))
  }

  lemma RootsOfSnoc(lines: seq<Bytes>, line: Bytes)
    ensures RootsOf(lines + [line]) == RootsOf(lines) + if RootOf(line).Some? then {RootOf(line).value} else {}
  {
    var more := lines + [line];
    assert forall l :: l in more <==> l in lines || l == line;
  }

  // ----- The recursive specification -----

  function Collect(node: Node): set<StoreHash>
    decreases node
  {
    match node
    case File(content) => RootsIn(content)
    case Dir(entries) => CollectEntries(entries)
    case _ => {}
  }

  function CollectEntries(entries: seq<DirEntry>): set<StoreHash>
    decreases entries
  {
    if entries == [] then {}
    else (if Hidden(entries[0].name) then {} else Collect(entries[0].node)) + CollectEntries(entries[1..])
  }

  function CollectAll(nodes: seq<Node>): set<StoreHash> {
    if nodes == [] then {} else Collect(nodes[0]) + CollectAll(nodes[1..])
  }

  function Size(node: Node): nat
    decreases node
  {
    match node
    case Dir(entries) => 1 + SizeEntries(entries)
    case _ => 1
  }

  function SizeEntries(entries: seq<DirEntry>): nat
    decreases entries
  {
    if entries == [] then 0
    else (if Hidden(entries[0].name) then 0 else Size(entries[0].node)) + SizeEntries(entries[1..])
  }

  function SizeAll(nodes: seq<Node>): nat {
    if nodes == [] then 0 else Size(nodes[0]) + SizeAll(nodes[1..])
  }

  lemma {:induction false} CollectBoth(nodes: seq<Node>, more: seq<Node>)
    ensures CollectAll(nodes + more) == CollectAll(nodes) + CollectAll(more)
    ensures SizeAll(nodes + more) == SizeAll(nodes) + SizeAll(more)
    decreases |nodes|
  {
    if nodes == [] {
      assert nodes + more == more;
    } else {
      assert (nodes + more)[1..] == nodes[1..] + more;
      CollectBoth(nodes[1..], more);
    }
  }

  /** The nodes the walk goes on to, in order. */
  function Visible(entries: seq<DirEntry>): seq<Node> {
    if entries == [] then []
    else (if Hidden(entries[0].name) then [] else [entries[0].node]) + Visible(entries[1..])
  }

  lemma {:induction false} CollectVisible(entries: seq<DirEntry>)
    ensures CollectAll(Visible(entries)) == CollectEntries(entries)
    ensures SizeAll(Visible(entries)) == SizeEntries(entries)
    decreases |entries|
  {
    if entries == [] {
    } else {
      CollectVisible(entries[1..]);
      if !Hidden(entries[0].name) {
        assert Visible(entries)[1..] == Visible(entries[1..]);
      } else {
        assert Visible(entries) == Visible(entries[1..]);
      }
    }
  }

  // ----- The walk -----

  class GcRoots {
    var queue: seq<Node>
    var seen: nat
    var storeHashes: set<StoreHash>

    constructor ()
      ensures queue == [] && seen == 0 && storeHashes == {}
    {
      queue, seen, storeHashes := [], 0, {};
    }

    method Enqueue(path: Node)
      modifies this`queue
      ensures queue == old(queue) + [path]
    {
      queue := queue + [path];
    }

    /** The queue-driven walk collects what the recursive specification says, visiting every
        node once. */
    method Scan()
      modifies this
      ensures queue == [] && storeHashes == old(storeHashes) + CollectAll(old(queue))
      ensures seen == old(seen) + SizeAll(old(queue))
    {
      while queue != []
        invariant storeHashes + CollectAll(queue) == old(storeHashes) + CollectAll(old(queue))
        invariant seen + SizeAll(queue) == old(seen) + SizeAll(old(queue))
        decreases SizeAll(queue)
      {
        var path := queue[0];
        queue := queue[1..];
        seen := seen + 1;
        match path {
          case Dir(entries) =>
            CollectVisible(entries);
            CollectBoth(queue, Visible(entries));
            RecurseInto(entries);
          case File(content) => ReadMarkerFile(content);
          case _ =>
        }
      }
    }

    method ReadMarkerFile(content: Bytes)
      modifies this`storeHashes
      ensures storeHashes == old(storeHashes) + RootsIn(content)
    {
      var lines := Lines(content);
      for i := 0 to |lines|
        invariant storeHashes == old(storeHashes) + RootsOf(lines[..i])
      {
        RootsOfSnoc(lines[..i], lines[i]);
        assert lines[..i + 1] == lines[..i] + [lines[i]];
        var hash := RootOf(lines[i]);
        if hash.Some? {
          storeHashes := storeHashes + {hash.value};
        }
      }
      assert lines[..|lines|] == lines;
    }

    method RecurseInto(entries: seq<DirEntry>)
      modifies this`queue
      ensures queue == old(queue) + Visible(entries)
    {
      for i := 0 to |entries|
        invariant queue + Visible(entries[i..]) == old(queue) + Visible(entries)
      {
        assert entries[i..][0] == entries[i] && entries[i..][1..] == entries[i + 1..];
        if !Hidden(entries[i].name) {
          Enqueue(entries[i].node);
        }
      }
    }
  }

  // ----- Replacing a marker -----

  /** A gcroots directory by name. */
  type Listing = map<Bytes, Node>

  /** Some order in which `readdir` may return the directory. */
  ghost predicate Lists(entries: seq<DirEntry>, dir: Listing) {
    && (forall i :: 0 <= i < |entries| ==> entries[i].name in dir && dir[entries[i].name] == entries[i].node)
    && (forall name :: name in dir ==> exists i :: 0 <= i < |entries| && entries[i].name == name)
  }

  ghost predicate IsRoot(dir: Listing, h: StoreHash) {
    exists name :: name in dir && !Hidden(name) && h in Collect(dir[name])
  }

  lemma {:induction false} CollectEntriesMember(entries: seq<DirEntry>, h: StoreHash)
    ensures h in CollectEntries(entries) <==>
            exists i :: 0 <= i < |entries| && !Hidden(entries[i].name) && h in Collect(entries[i].node)
    decreases |entries|
  {
    if entries == [] {
    } else {
      CollectEntriesMember(entries[1..], h);
      assert forall i :: 0 < i < |entries| ==> entries[i] == entries[1..][i - 1];
      assert forall i :: 0 <= i < |entries| - 1 ==> entries[1..][i] == entries[i + 1];
    }
  }

  /** In whatever order a directory is read, hidden files are no roots and all others are. */
  lemma CollectIsByName(entries: seq<DirEntry>, dir: Listing, h: StoreHash)
    requires Lists(entries, dir)
    ensures h in Collect(Dir(entries)) <==> IsRoot(dir, h)
  {
    CollectEntriesMember(entries, h);
    if IsRoot(dir, h) {
      var name :| name in dir && !Hidden(name) && h in Collect(dir[name]);
      var i :| 0 <= i < |entries| && entries[i].name == name;
    }
  }

  function TempName(job: Bytes): Bytes {
    [DOT] + job + [46, 116, 109, 112]
  }

  ghost predicate SameBut(a: Listing, b: Listing, name: Bytes) {
    a - {name} == b - {name}
  }

  ghost predicate SameRoots(a: Listing, b: Listing) {
    forall h :: IsRoot(a, h) <==> IsRoot(b, h)
  }

  lemma HiddenFilesAreNoRoots(a: Listing, b: Listing, name: Bytes)
    requires SameBut(a, b, name) && Hidden(name)
    ensures SameRoots(a, b)
  {
    assert forall n :: n in a && n != name <==> n in a - {name};
    assert forall n :: n in b && n != name <==> n in b - {name};
  }

  /** The gcroots directory seen by a local `put_marker`. `past` records every state the
      directory went through, `faults` counts the file operations that failed. */
  class MarkerDir {
    var dir: Listing
    ghost var past: seq<Listing>
    ghost var faults: nat

    constructor (initial: Listing)
      ensures dir == initial && past == [initial]
    {
      dir, past, faults := initial, [initial], 0;
    }

    /** Whether the next file operation succeeds. */
    method Succeeds() returns (ok: bool)
      modifies this`faults
      ensures faults == old(faults) + if ok then 0 else 1
    {
      ok := *;
      if !ok {
        faults := faults + 1;
      }
    }

    /** `fs::write`, in pieces: at any time, and for good if it fails, the file may be there
        with only part of its content. */
    method WriteFile(name: Bytes, content: Bytes) returns (ok: bool)
      modifies this
      ensures |past| >= |old(past)| && past[..|old(past)|] == old(past)
      ensures forall i :: |old(past)| <= i < |past| ==> SameBut(past[i], old(dir), name)
      ensures SameBut(dir, old(dir), name)
      ensures ok <==> faults == old(faults)
      ensures ok ==> name in dir && dir[name] == File(content)
    {
      ok := true;
      for n := 0 to |content| + 1
        invariant |past| >= |old(past)| && past[..|old(past)|] == old(past)
        invariant forall i :: |old(past)| <= i < |past| ==> SameBut(past[i], old(dir), name)
        invariant SameBut(dir, old(dir), name) && ok && faults == old(faults)
        invariant n > 0 ==> name in dir && dir[name] == File(content[..n - 1])
      {
        ok := Succeeds();
        if !ok {
          return;
        }
        dir := dir[name := File(content[..n])];
        past := past + [dir];
      }
      assert content[..|content|] == content;
    }

    /** Every reader, at any moment and after any failure, finds the roots of the old marker
        or those of the new one: the new one's unless a file operation failed. */
    method PutMarker(job: Bytes, storePath: Bytes) returns (ok: bool)
      requires past == [dir] && !Hidden(job)
      modifies this
      ensures ok <==> faults == old(faults)
      ensures ok ==> job in dir && dir[job] == File(storePath + [NEWLINE])
      ensures ok ==> forall h :: h in RootsIn(storePath + [NEWLINE]) ==> IsRoot(dir, h)
      ensures var new' := old(dir)[job := File(storePath + [NEWLINE])];
              && (forall i :: 0 <= i < |past| ==> SameRoots(past[i], old(dir)) || SameRoots(past[i], new'))
              && (if ok then SameRoots(dir, new') else SameRoots(dir, old(dir)))
    {
      ghost var before := dir;
      var tmp := TempName(job);
      var content := storePath + [NEWLINE];
      ok := WriteFile(tmp, content);
      forall i | 0 <= i < |past| ensures SameRoots(past[i], before) {
        HiddenFilesAreNoRoots(past[i], before, tmp);
      }
      HiddenFilesAreNoRoots(dir, before, tmp);
      if ok {
        ok := Succeeds();
        if ok {
          HiddenFilesAreNoRoots((dir - {tmp})[job := dir[tmp]], before[job := dir[tmp]], tmp);
          dir := (dir - {tmp})[job := dir[tmp]];
          past := past + [dir];
        }
      }
    }
  }

  // ----- What the definitions mean, on text written out -----

  /** Names with a leading dot are hidden, and no others. */
  lemma DotHides(name: Bytes)
    ensures Hidden(name) <==> exists rest :: name == [DOT] + rest
    ensures Hidden(TempName(name)) && TempName(name)[..|name| + 1] == [DOT] + name
    ensures Spells(TempName(name)[|name| + 1..], ".tmp")
  {
    if Hidden(name) {
      assert name == [DOT] + name[1..];
    }
  }

  /** Only regular files and directories yield roots, and a list of nodes what each of them does. */
  lemma {:induction false} CollectedFromEach(nodes: seq<Node>, h: StoreHash)
    ensures h in CollectAll(nodes) <==> exists i :: 0 <= i < |nodes| && h in Collect(nodes[i])
    ensures forall i :: 0 <= i < |nodes| && !nodes[i].File? && !nodes[i].Dir? ==> Collect(nodes[i]) == {}
    ensures forall i :: 0 <= i < |nodes| && nodes[i].File? ==> Collect(nodes[i]) == RootsIn(nodes[i].content)
    decreases |nodes|
  {
    if nodes == [] {
    } else {
      CollectedFromEach(nodes[1..], h);
      assert forall i :: 0 < i < |nodes| ==> nodes[i] == nodes[1..][i - 1];
      assert forall i :: 0 <= i < |nodes| - 1 ==> nodes[1..][i] == nodes[i + 1];
    }
  }

  lemma SpacePrefixOfChar(c: Scalar, s: Bytes)
    ensures SpacePrefix(Utf8(c) + s) == if White(c) then |Utf8(c)| else 0
  {
    var t := Utf8(c) + s;
    assert forall i :: 0 <= i < |Utf8(c)| ==> t[i] == Utf8(c)[i];
  }

  /** Trimming takes away a first character if and only if it is white space. */
  lemma TrimStartOfChar(c: Scalar, s: Bytes)
    ensures TrimStart(Utf8(c) + s) == if White(c) then TrimStart(s) else Utf8(c) + s
  {
    SpacePrefixOfChar(c, s);
    assert (Utf8(c) + s)[|Utf8(c)|..] == s;
  }

  /** A path in the store, named as `nix` names it. */
  datatype Item = Item(hash: StoreHash, name: Bytes) {
    predicate Valid() {
      && hash.Valid() && SLASH !in name && NEWLINE !in name
      && TrimEnd(hash.bytes + name) == hash.bytes + name
    }

    function Path(): Bytes {
      StorePath(hash.bytes + name)
    }
  }

  /** Names of graphic characters, as all names in the store, are such names. */
  lemma GraphicNamesAreValid(item: Item)
    requires item.hash.Valid() && forall b :: b in item.name ==> 33 <= b <= 126 && b != SLASH
    ensures item.Valid()
  {
    var s := item.hash.bytes + item.name;
    assert s[|s| - 1] in item.name || s[|s| - 1] in item.hash.bytes;
  }

  /** White space around a path, other than within its line, does not matter. */
  lemma RootOfPath(item: Item)
    requires item.Valid()
    ensures RootOf(item.Path()) == Some(item.hash)
    ensures forall c: Scalar :: White(c) ==> RootOf(Utf8(c) + item.Path()) == Some(item.hash)
  {
    var s := item.hash.bytes + item.name;
    var path := item.Path();
    TrimEndByTail(path, s);
    assert path[0] == SLASH && TrimStart(path) == path;
    StorePathYieldsHash(item.hash, item.name, []);
    forall c: Scalar | White(c) ensures RootOf(Utf8(c) + path) == Some(item.hash) {
      TrimStartOfChar(c, path);
    }
  }

  lemma StorePathBytes(item: Bytes, b: byte)
    requires b in StorePath(item)
    ensures b in item || b in [SLASH] || b in NIX || b in STORE
  {
  }

  lemma PathIsOneLine(item: Item)
    requires item.Valid()
    ensures NEWLINE !in item.Path() && item.Path() != [] && StripReturn(item.Path()) == item.Path()
  {
    var s, path := item.hash.bytes + item.name, item.Path();
    if NEWLINE in path {
      StorePathBytes(s, NEWLINE);
    }
    TrimEndShrinks(s);
    StorePathIsSpelled(s);
    assert path[11..][|s| - 1] == path[|path| - 1];
  }

  function Paths(items: seq<Item>): seq<Bytes> {
    if items == [] then [] else [items[0].Path()] + Paths(items[1..])
  }

  function Hashes(items: seq<Item>): set<StoreHash> {
    set i | 0 <= i < |items| :: items[i].hash
  }

  lemma {:induction false} PathsAreLines(items: seq<Item>)
    requires forall i :: 0 <= i < |items| ==> items[i].Valid()
    ensures Stripped(Paths(items)) == Paths(items) && |Paths(items)| == |items|
    ensures forall l :: l in Paths(items) ==> NEWLINE !in l
    ensures forall i :: 0 <= i < |items| ==> Paths(items)[i] == items[i].Path()
    decreases |items|
  {
    if items == [] {
    } else {
      PathIsOneLine(items[0]);
      PathsAreLines(items[1..]);
      assert Paths(items)[1..] == Paths(items[1..]);
    }
  }

  lemma RootsOfCons(line: Bytes, lines: seq<Bytes>)
    ensures RootsOf([line] + lines) == RootsOf(lines) + if RootOf(line).Some? then {RootOf(line).value} else {}
  {
    assert forall l :: l in [line] + lines <==> l in lines || l == line;
  }

  lemma HashesCons(items: seq<Item>)
    requires items != []
    ensures Hashes(items) == {items[0].hash} + Hashes(items[1..])
  {
    assert forall i :: 0 < i < |items| ==> items[i] == items[1..][i - 1];
    assert forall i :: 0 <= i < |items| - 1 ==> items[1..][i] == items[i + 1];
  }

  lemma {:induction false} RootsOfPaths(items: seq<Item>)
    requires forall i :: 0 <= i < |items| ==> items[i].Valid()
    ensures RootsOf(Paths(items)) == Hashes(items)
    decreases |items|
  {
    if items == [] {
    } else {
      RootsOfPaths(items[1..]);
      HashesCons(items);
      RootsOfCons(items[0].Path(), Paths(items[1..]));
      RootOfPath(items[0]);
    }
  }

  lemma LinesOfPaths(items: seq<Item>)
    requires forall i :: 0 <= i < |items| ==> items[i].Valid()
    ensures Lines(Terminated(Paths(items))) == Paths(items)
  {
    PathsAreLines(items);
    LinesOfText(Paths(items), []);
    assert Terminated(Paths(items)) + [] == Terminated(Paths(items));
    assert Paths(items) + [] == Paths(items);
  }

  /** A marker file of store paths, one a line, yields exactly their hashes. */
  lemma MarkerYieldsHashes(items: seq<Item>)
    requires forall i :: 0 <= i < |items| ==> items[i].Valid()
    ensures RootsIn(Terminated(Paths(items))) == Hashes(items)
  {
    LinesOfPaths(items);
    RootsOfPaths(items);
  }

  /** So does one whose last line has no newline. */
  lemma LastLineCounts(items: seq<Item>, last: Item)
    requires last.Valid() && forall i :: 0 <= i < |items| ==> items[i].Valid()
    ensures RootsIn(Terminated(Paths(items)) + last.Path()) == Hashes(items) + {last.hash}
  {
    PathsAreLines(items);
    PathIsOneLine(last);
    LinesOfText(Paths(items), last.Path());
    RootsOfSnoc(Paths(items), last.Path());
    RootsOfPaths(items);
    RootOfPath(last);
  }

  lemma OnePath(item: Item)
    ensures Paths([item]) == [item.Path()]
  {
    var items := [item];
    assert items[1..] == [];
  }

  lemma OneLine(line: Bytes)
    ensures Terminated([line]) == line + [NEWLINE]
  {
    var lines := [line];
    assert lines[1..] == [];
  }

  lemma OneHash(item: Item)
    ensures Hashes([item]) == {item.hash}
  {
    HashesCons([item]);
    assert [item][1..] == [];
  }

  /** What `put_marker` writes yields the one hash. */
  lemma WrittenMarkerYieldsHash(item: Item)
    requires item.Valid()
    ensures RootsIn(item.Path() + [NEWLINE]) == {item.hash}
  {
    OnePath(item);
    OneLine(item.Path());
    OneHash(item);
    MarkerYieldsHashes([item]);
  }
}
