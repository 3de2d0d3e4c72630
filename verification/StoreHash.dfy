/** `src/store_hash.rs`: the 32-byte identity of a store path, and the path
    operations it is parsed with. Text is UTF-8, so everything works on bytes. */
module StoreHashes {
  import opened Wrappers

  type byte = b: int | 0 <= b < 256
  type Bytes = seq<byte>

  const HASH_LEN := 32

  /** The Rust type keeps `bytes` private and only builds it through `FromBytes`;
      `Valid` is that invariant. */
  datatype StoreHash = StoreHash(bytes: Bytes) {
    predicate Valid() {
      |bytes| == HASH_LEN && forall i :: 0 <= i < |bytes| ==> IsAlphanumeric(bytes[i])
    }
  }

  predicate IsAlphanumeric(b: byte) {
    || 48 <= b <= 57
    || 65 <= b <= 90
    || 97 <= b <= 122
  }

  function FromBytes(hash: Bytes): (r: Option<StoreHash>)
    requires |hash| == HASH_LEN
    ensures forall h :: r == Some(h) <==> h.Valid() && h.bytes == hash
  {
    if forall i :: 0 <= i < |hash| ==> IsAlphanumeric(hash[i]) then Some(StoreHash(hash)) else None
  }

  /** A name has a hash if and only if it begins with a valid one. */
  function FromPrefix(bytes: Bytes): (r: Option<StoreHash>)
    ensures forall h :: r == Some(h) <==> h.Valid() && h.bytes <= bytes
  {
    if |bytes| < HASH_LEN then None else FromBytes(bytes[..HASH_LEN])
  }

  function FromName(name: Bytes): (r: Option<StoreHash>)
    ensures forall h :: r == Some(h) <==> h.Valid() && h.bytes <= name
  {
    FromPrefix(name)
  }

  const SLASH: byte := 47
  const DOT: byte := 46

  /** The pieces between separators; one more piece than there are separators. */
  function Split(s: Bytes, sep: byte): (pieces: seq<Bytes>)
    ensures |pieces| >= 1
    ensures forall p, i :: p in pieces && 0 <= i < |p| ==> p[i] != sep
  {
    if s == [] then [[]]
    else
      var rest := Split(s[1..], sep);
      if s[0] == sep then [[]] + rest else [[s[0]] + rest[0]] + rest[1..]
  }

  /** A path's components: the pieces between slashes, without the empty ones and `.`. */
  function Components(path: Bytes): seq<Bytes> {
    DropTrivial(Split(path, SLASH))
  }

  function DropTrivial(pieces: seq<Bytes>): (r: seq<Bytes>)
    ensures forall p :: p in r <==> p in pieces && p != [] && p != [DOT]
  {
    if pieces == [] then []
    else (if pieces[0] == [] || pieces[0] == [DOT] then [] else [pieces[0]]) + DropTrivial(pieces[1..])
  }

  /** `Path::file_name`: the last component, unless it is `..`. */
  function FileName(path: Bytes): Option<Bytes> {
    var parts := Components(path);
    if parts == [] || parts[|parts| - 1] == [DOT, DOT] then None else Some(parts[|parts| - 1])
  }

  const NIX: Bytes := [110, 105, 120]
  const STORE: Bytes := [115, 116, 111, 114, 101]

  /** An absolute path through `/nix/store` to a name that begins with the hash. */
  predicate InStore(path: Bytes, h: StoreHash) {
    && path != [] && path[0] == SLASH
    && |Components(path)| > 2 && Components(path)[..2] == [NIX, STORE] && h.bytes <= Components(path)[2]
  }

  /** `/nix/store/<hash>-<name>`; only the component after `/nix/store` matters,
      since a hash cannot contain a separator. */
  function FromStorePath(path: Bytes): (r: Option<StoreHash>)
    ensures forall h :: r == Some(h) <==> h.Valid() && InStore(path, h)
  {
    var parts := Components(path);
    if path != [] && path[0] == SLASH && |parts| > 2 && parts[0] == NIX && parts[1] == STORE
    then FromPrefix(parts[2])
    else None
  }

  lemma {:induction false} SplitPiece(piece: Bytes, rest: Bytes, sep: byte)
    requires sep !in piece
    ensures Split(piece, sep) == [piece]
    ensures Split(piece + [sep] + rest, sep) == [piece] + Split(rest, sep)
    decreases |piece|
  {
    var s := piece + [sep] + rest;
    if piece == [] {
      assert s[1..] == rest;
    } else {
      assert s[1..] == piece[1..] + [sep] + rest;
      SplitPiece(piece[1..], rest, sep);
      assert [piece[0]] + piece[1..] == piece;
    }
  }

  lemma ComponentsCons(piece: Bytes, rest: Bytes)
    requires SLASH !in piece && piece != [] && piece != [DOT]
    ensures Components(piece + [SLASH] + rest) == [piece] + Components(rest)
    ensures Components(piece) == [piece]
  {
    SplitPiece(piece, rest, SLASH);
    assert ([piece] + Split(rest, SLASH))[1..] == Split(rest, SLASH);
    var one: seq<Bytes> := [piece];
    assert Split(piece, SLASH) == one && one[0] == piece && one[1..] == [];
    assert DropTrivial(one) == [piece] + DropTrivial(one[1..]);
  }

  lemma ComponentsSlash(rest: Bytes)
    ensures Components([SLASH] + rest) == Components(rest)
  {
    SplitPiece([], rest, SLASH);
    var none: Bytes := [];
    assert none + [SLASH] + rest == [SLASH] + rest;
    assert ([none] + Split(rest, SLASH))[1..] == Split(rest, SLASH);
  }

  /** The path of an item in the store. */
  function StorePath(item: Bytes): Bytes {
    [SLASH] + (NIX + [SLASH] + (STORE + [SLASH] + item))
  }

  lemma ThroughTwo(a: Bytes, b: Bytes, item: Bytes)
    requires SLASH !in a && a != [] && a != [DOT] && SLASH !in b && b != [] && b != [DOT]
    ensures Components([SLASH] + (a + [SLASH] + (b + [SLASH] + item))) == [a, b] + Components(item)
  {
    ComponentsSlash(a + [SLASH] + (b + [SLASH] + item));
    ComponentsCons(a, b + [SLASH] + item);
    ComponentsCons(b, item);
    assert [a] + ([b] + Components(item)) == [a, b] + Components(item);
  }

  /** The hash of a store path, or of a file below it, is the one its name begins with. */
  lemma StorePathYieldsHash(h: StoreHash, name: Bytes, below: Bytes)
    requires h.Valid() && SLASH !in name
    ensures FromStorePath(StorePath(h.bytes + name)) == Some(h)
    ensures FromStorePath(StorePath(h.bytes + name + [SLASH] + below)) == Some(h)
  {
    var item := h.bytes + name;
    assert SLASH !in h.bytes;
    assert h.bytes <= item && |item| >= HASH_LEN;
    ComponentsCons(item, below);
    ComesFromStore(h, item, item, []);
    ComesFromStore(h, item + [SLASH] + below, item, Components(below));
  }

  lemma ComesFromStore(h: StoreHash, path: Bytes, item: Bytes, rest: seq<Bytes>)
    requires h.Valid() && Components(path) == [item] + rest && h.bytes <= item
    ensures FromStorePath(StorePath(path)) == Some(h)
  {
    ThroughTwo(NIX, STORE, path);
    assert InStore(StorePath(path), h);
  }

  // ----- What the definitions mean, on text written out -----

  predicate Spells(bytes: Bytes, text: string) {
    |bytes| == |text| && forall i :: 0 <= i < |text| ==> bytes[i] as int == text[i] as int
  }

  lemma AlphanumericIsSpelled(b: byte)
    ensures IsAlphanumeric(b) <==> '0' <= b as char <= '9' || 'A' <= b as char <= 'Z' || 'a' <= b as char <= 'z'
  {
  }

  lemma ValidIsSpelled(h: StoreHash)
    ensures h.Valid() <==>
            |h.bytes| == 32 &&
            forall b :: b in h.bytes ==> '0' <= b as char <= '9' || 'A' <= b as char <= 'Z' || 'a' <= b as char <= 'z'
  {
    forall b: byte {
      AlphanumericIsSpelled(b);
    }
    if forall b :: b in h.bytes ==> IsAlphanumeric(b) {
      forall i | 0 <= i < |h.bytes| ensures IsAlphanumeric(h.bytes[i]) {
        assert h.bytes[i] in h.bytes;
      }
    }
  }

  lemma StorePathIsSpelled(item: Bytes)
    ensures Spells(StorePath(item)[..11], "/nix/store/") && StorePath(item)[11..] == item
  {
  }

  /** What a first byte does to the pieces of what follows it. */
  function AddByte(x: byte, pieces: seq<Bytes>, sep: byte): seq<Bytes>
    requires pieces != []
  {
    if x == sep then [[]] + pieces else [[x] + pieces[0]] + pieces[1..]
  }

  lemma SplitCons(x: byte, s: Bytes, sep: byte)
    ensures Split([x] + s, sep) == AddByte(x, Split(s, sep), sep)
  {
    assert ([x] + s)[1..] == s;
  }

  lemma AddByteBoth(x: byte, a: seq<Bytes>, b: seq<Bytes>, sep: byte)
    requires a != []
    ensures AddByte(x, a + b, sep) == AddByte(x, a, sep) + b
  {
    assert (a + b)[1..] == a[1..] + b;
  }

  lemma {:induction false} SplitBoth(a: Bytes, b: Bytes, sep: byte)
    ensures Split(a + [sep] + b, sep) == Split(a, sep) + Split(b, sep)
    decreases |a|
  {
    if a == [] {
      assert a + [sep] + b == [sep] + b;
      SplitCons(sep, b, sep);
    } else {
      var rest := a[1..];
      assert a == [a[0]] + rest && a + [sep] + b == [a[0]] + (rest + [sep] + b);
      SplitCons(a[0], rest, sep);
      SplitCons(a[0], rest + [sep] + b, sep);
      SplitBoth(rest, b, sep);
      AddByteBoth(a[0], Split(rest, sep), Split(b, sep), sep);
    }
  }

  lemma {:induction false} DropTrivialBoth(a: seq<Bytes>, b: seq<Bytes>)
    ensures DropTrivial(a + b) == DropTrivial(a) + DropTrivial(b)
    decreases |a|
  {
    if a == [] {
      assert a + b == b;
    } else {
      assert (a + b)[1..] == a[1..] + b;
      DropTrivialBoth(a[1..], b);
    }
  }

  lemma ComponentsBoth(dir: Bytes, rest: Bytes)
    ensures Components(dir + [SLASH] + rest) == Components(dir) + Components(rest)
  {
    SplitBoth(dir, rest, SLASH);
    DropTrivialBoth(Split(dir, SLASH), Split(rest, SLASH));
  }

  /** The base name is what stands behind the last slash. */
  lemma FileNameIsBaseName(dir: Bytes, name: Bytes)
    requires SLASH !in name && name != [] && name != [DOT] && name != [DOT, DOT]
    ensures FileName(name) == Some(name) && FileName(dir + [SLASH] + name) == Some(name)
  {
    ComponentsCons(name, []);
    ComponentsBoth(dir, name);
  }

  lemma NoComponents()
    ensures Components([]) == []
  {
    var pieces: seq<Bytes> := [[]];
    assert Split([], SLASH) == pieces && pieces[1..] == [];
  }

  /** Slashes and dots behind it do not count, and a parent directory has no name. */
  lemma FileNameOfDir(dir: Bytes, name: Bytes)
    requires SLASH !in name && name != [] && name != [DOT] && name != [DOT, DOT]
    ensures FileName(dir + [SLASH] + name + [SLASH]) == Some(name)
    ensures FileName(dir + [SLASH, DOT, DOT]) == None
    ensures FileName([]) == None && FileName([SLASH]) == None
  {
    var none: Bytes := [];
    ComponentsCons(name, none);
    ComponentsBoth(dir, name);
    ComponentsBoth(dir + [SLASH] + name, none);
    assert dir + [SLASH] + name + [SLASH] == dir + [SLASH] + name + [SLASH] + none;
    NoComponents();
    ComponentsCons([DOT, DOT], none);
    ComponentsBoth(dir, [DOT, DOT]);
    assert dir + [SLASH, DOT, DOT] == dir + [SLASH] + [DOT, DOT];
    ComponentsBoth(none, none);
    assert none + [SLASH] + none == [SLASH];
  }
}
