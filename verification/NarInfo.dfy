/** `src/binary_cache.rs`: the metadata the pruner reads from a `.narinfo` file.
    `Parse` follows `NarInfo::parse` line by line; `Render` writes such a file, and
    `ParseUndoesRender` says parsing recovers what was rendered. */
module NarInfos {
  import opened Wrappers
  import opened StoreHashes

  const U64_LIMIT: nat := 0x1_0000_0000_0000_0000
  type uint64 = n: nat | n < U64_LIMIT

  datatype NarInfo = NarInfo(
    url: Option<Bytes>,
    fileSize: uint64,
    narSize: uint64,
    references: seq<StoreHash>,
    deriver: Option<StoreHash>)
  {
    /** What the Rust field types guarantee. */
    predicate Valid() {
      && (url.Some? ==> IsUtf8(url.value))
      && (forall i :: 0 <= i < |references| ==> references[i].Valid())
      && (deriver.Some? ==> deriver.value.Valid())
    }

    /** The name its archive has in `nar/` (prune.rs:155-160). */
    function Archive(): Option<Bytes> {
      if url.Some? then FileName(url.value) else None
    }

    function References(): set<StoreHash> {
      set i | 0 <= i < |references| :: references[i]
    }

    /** What the scanner follows (dep_scan.rs:128). */
    function Successors(): set<StoreHash> {
      References() + (if deriver.Some? then {deriver.value} else {})
    }
  }

  /** A hash and its metadata, as a scan returns it and the closure cache saves it. */
  type Entry = (StoreHash, NarInfo)

  const DEFAULT: NarInfo := NarInfo(None, 0, 0, [], None)

  // ----- Text -----

  predicate IsTail(b: byte) {
    0x80 <= b <= 0xBF
  }

  /** The well-formed byte sequences of the Unicode Standard, table 3-7. */
  predicate IsUtf8(s: Bytes) {
    if s == [] then true
    else if s[0] < 0x80 then IsUtf8(s[1..])
    else if 0xC2 <= s[0] <= 0xDF then |s| >= 2 && IsTail(s[1]) && IsUtf8(s[2..])
    else if 0xE0 <= s[0] <= 0xEF then
      && |s| >= 3 && IsTail(s[1]) && IsTail(s[2])
      && (s[0] == 0xE0 ==> s[1] >= 0xA0) && (s[0] == 0xED ==> s[1] <= 0x9F)
      && IsUtf8(s[3..])
    else
      && 0xF0 <= s[0] <= 0xF4 && |s| >= 4 && IsTail(s[1]) && IsTail(s[2]) && IsTail(s[3])
      && (s[0] == 0xF0 ==> s[1] >= 0x90) && (s[0] == 0xF4 ==> s[1] <= 0x8F)
      && IsUtf8(s[4..])
  }

  const NEWLINE: byte := 10
  const RETURN: byte := 13
  const SPACE: byte := 32
  const COLON: byte := 58

  function NewlineAt(s: Bytes): (i: nat)
    ensures i <= |s|
    ensures i < |s| ==> s[i] == NEWLINE
    ensures forall j :: 0 <= j < i ==> s[j] != NEWLINE
  {
    if s == [] || s[0] == NEWLINE then 0 else 1 + NewlineAt(s[1..])
  }

  function StripReturn(line: Bytes): Bytes {
    if line != [] && line[|line| - 1] == RETURN then line[..|line| - 1] else line
  }

  /** `str::lines`: a final line without its newline counts, and keeps its `\r`. */
  function Lines(s: Bytes): seq<Bytes> {
    if s == [] then []
    else
      var i := NewlineAt(s);
      if i == |s| then [s] else [StripReturn(s[..i])] + Lines(s[i + 1..])
  }

  /** `str::split_once(": ")`. */
  function SplitOnce(s: Bytes): Option<(Bytes, Bytes)> {
    if |s| < 2 then None
    else if s[0] == COLON && s[1] == SPACE then Some(([], s[2..]))
    else
      match SplitOnce(s[1..])
      case None => None
      case Some((key, val)) => Some(([s[0]] + key, val))
  }

  /** The length of the white-space character `s` ends with, 0 if it ends with none. */
  function SpaceSuffix(s: Bytes): (n: nat)
    ensures n <= |s|
  {
    var k := |s|;
    if k >= 1 && (9 <= s[k - 1] <= 13 || s[k - 1] == SPACE) then 1
    else if k >= 2 && s[k - 2] == 0xC2 && (s[k - 1] == 0x85 || s[k - 1] == 0xA0) then 2
    else if k >= 3 && IsWideSpace(s[k - 3], s[k - 2], s[k - 1]) then 3
    else 0
  }

  predicate IsWideSpace(a: byte, b: byte, c: byte) {
    || (a == 0xE1 && b == 0x9A && c == 0x80)
    || (a == 0xE2 && b == 0x80 && (0x80 <= c <= 0x8A || c == 0xA8 || c == 0xA9 || c == 0xAF))
    || (a == 0xE2 && b == 0x81 && c == 0x9F)
    || (a == 0xE3 && b == 0x80 && c == 0x80)
  }

  function TrimEnd(s: Bytes): Bytes
    decreases |s|
  {
    if SpaceSuffix(s) == 0 then s else TrimEnd(s[..|s| - SpaceSuffix(s)])
  }

  predicate IsDigit(b: byte) {
    48 <= b <= 57
  }

  predicate AllDigits(s: Bytes) {
    forall i :: 0 <= i < |s| ==> IsDigit(s[i])
  }

  function DigitsValue(s: Bytes): nat
    requires AllDigits(s)
  {
    if s == [] then 0
    else
      var last := s[|s| - 1];
      assert IsDigit(last);
      10 * DigitsValue(s[..|s| - 1]) + (last as int - 48)
  }

  /** `str::parse::<u64>`: an optional `+`, at least one digit, and no overflow. */
  function ParseU64(s: Bytes): Option<uint64> {
    var digits := if s != [] && s[0] == 43 then s[1..] else s;
    if digits != [] && AllDigits(digits) && DigitsValue(digits) < U64_LIMIT
    then Some(DigitsValue(digits))
    else None
  }

  function OrZero(n: Option<uint64>): uint64 {
    if n.Some? then n.value else 0
  }

  function HashesOf(names: seq<Bytes>): (r: seq<StoreHash>)
    ensures |r| <= |names|
    ensures forall i :: 0 <= i < |r| ==> r[i].Valid()
  {
    if names == [] then []
    else
      var first := FromName(names[0]);
      (if first.Some? then [first.value] else []) + HashesOf(names[1..])
  }

  // ----- Parsing -----

  const URL_KEY: Bytes := [85, 82, 76]
  const FILE_SIZE_KEY: Bytes := [70, 105, 108, 101, 83, 105, 122, 101]
  const NAR_SIZE_KEY: Bytes := [78, 97, 114, 83, 105, 122, 101]
  const DERIVER_KEY: Bytes := [68, 101, 114, 105, 118, 101, 114]
  const REFERENCES_KEY: Bytes := [82, 101, 102, 101, 114, 101, 110, 99, 101, 115]

  function ParseLine(info: NarInfo, line: Bytes): NarInfo {
    match SplitOnce(line)
    case None => info
    case Some((key, rest)) => ParseField(info, key, TrimEnd(rest))
  }

  function ParseField(info: NarInfo, key: Bytes, val: Bytes): NarInfo {
    if key == URL_KEY then info.(url := Some(val))
    else if key == FILE_SIZE_KEY then info.(fileSize := OrZero(ParseU64(val)))
    else if key == NAR_SIZE_KEY then info.(narSize := OrZero(ParseU64(val)))
    else if key == DERIVER_KEY then info.(deriver := FromName(val))
    else if key == REFERENCES_KEY then info.(references := HashesOf(Split(val, SPACE)))
    else info
  }

  function ParseLines(info: NarInfo, lines: seq<Bytes>): NarInfo
    decreases |lines|
  {
    if lines == [] then info else ParseLines(ParseLine(info, lines[0]), lines[1..])
  }

  function Parse(buf: Bytes): NarInfo {
    ParseLines(DEFAULT, Lines(buf))
  }

  lemma {:induction false} ParseLinesSnoc(info: NarInfo, lines: seq<Bytes>, line: Bytes)
    ensures ParseLines(info, lines + [line]) == ParseLine(ParseLines(info, lines), line)
    decreases |lines|
  {
    if lines == [] {
      var one: seq<Bytes> := [line];
      assert one[1..] == [];
    } else {
      assert (lines + [line])[1..] == lines[1..] + [line];
      ParseLinesSnoc(ParseLine(info, lines[0]), lines[1..], line);
    }
  }

  method ParseNarInfo(buf: Bytes) returns (info: NarInfo)
    ensures info == Parse(buf)
  {
    info := DEFAULT;
    var lines := Lines(buf);
    for i := 0 to |lines|
      invariant info == ParseLines(DEFAULT, lines[..i])
    {
      assert lines[..i + 1] == lines[..i] + [lines[i]];
      ParseLinesSnoc(DEFAULT, lines[..i], lines[i]);
      var line := lines[i];
      var split := SplitOnce(line);
      if split.None? {
        continue;
      }
      var (key, rest) := split.value;
      var val := TrimEnd(rest);
      if key == URL_KEY {
        info := info.(url := Some(val));
      } else if key == FILE_SIZE_KEY {
        info := info.(fileSize := OrZero(ParseU64(val)));
      } else if key == NAR_SIZE_KEY {
        info := info.(narSize := OrZero(ParseU64(val)));
      } else if key == DERIVER_KEY {
        info := info.(deriver := FromName(val));
      } else if key == REFERENCES_KEY {
        info := info.(references := HashesOf(Split(val, SPACE)));
      }
    }
    assert lines[..|lines|] == lines;
  }

  // ----- Rendering -----

  datatype Field =
    | Url(url: Bytes)
    | FileSize(size: uint64)
    | NarSize(size: uint64)
    | Deriver(name: Bytes)
    | References(names: seq<Bytes>)
    | Other(line: Bytes)   // a line `parse` passes over

  predicate Plain(s: Bytes) {
    NEWLINE !in s && TrimEnd(s) == s
  }

  /** No key, or none that `parse` knows. */
  predicate Unrelated(line: Bytes) {
    var split := SplitOnce(line);
    split.None? || split.value.0 !in {URL_KEY, FILE_SIZE_KEY, NAR_SIZE_KEY, DERIVER_KEY, REFERENCES_KEY}
  }

  predicate WellFormed(f: Field) {
    match f
    case Url(v) => Plain(v)
    case Deriver(v) => Plain(v)
    case References(names) => forall n :: n in names ==> Plain(n) && SPACE !in n && FromName(n).Some?
    case Other(line) => NEWLINE !in line && Unrelated(StripReturn(line))
    case _ => true
  }

  function Decimal(n: nat): (s: Bytes)
    ensures s != [] && AllDigits(s)
    ensures DigitsValue(s) == n
  {
    if n < 10 then [48 + n] else Decimal(n / 10) + [48 + n % 10]
  }

  function Join(names: seq<Bytes>): Bytes {
    if names == [] then []
    else if |names| == 1 then names[0]
    else names[0] + [SPACE] + Join(names[1..])
  }

  function RenderField(f: Field): Bytes {
    match f
    case Url(v) => URL_KEY + [COLON, SPACE] + v
    case FileSize(n) => FILE_SIZE_KEY + [COLON, SPACE] + Decimal(n)
    case NarSize(n) => NAR_SIZE_KEY + [COLON, SPACE] + Decimal(n)
    case Deriver(v) => DERIVER_KEY + [COLON, SPACE] + v
    case References(names) => REFERENCES_KEY + [COLON, SPACE] + Join(names)
    case Other(line) => line
  }

  function Render(fields: seq<Field>): Bytes {
    if fields == [] then [] else RenderField(fields[0]) + [NEWLINE] + Render(fields[1..])
  }

  /** What a field says, without going through text. */
  function Record(info: NarInfo, f: Field): NarInfo {
    match f
    case Url(v) => info.(url := Some(v))
    case FileSize(n) => info.(fileSize := n)
    case NarSize(n) => info.(narSize := n)
    case Deriver(v) => info.(deriver := FromName(v))
    case References(names) => info.(references := seq(|names|, i requires 0 <= i < |names| => StoreHash(FirstBytes(names[i]))))
    case Other(_) => info
  }

  function FirstBytes(name: Bytes): Bytes {
    if |name| < HASH_LEN then name else name[..HASH_LEN]
  }

  function RecordAll(info: NarInfo, fields: seq<Field>): NarInfo
    decreases |fields|
  {
    if fields == [] then info else RecordAll(Record(info, fields[0]), fields[1..])
  }

  lemma {:induction false} SplitOnceKeyed(key: Bytes, val: Bytes)
    requires COLON !in key
    ensures SplitOnce(key + [COLON, SPACE] + val) == Some((key, val))
    decreases |key|
  {
    var s := key + [COLON, SPACE] + val;
    if key == [] {
      assert s[2..] == val;
    } else {
      assert s[1..] == key[1..] + [COLON, SPACE] + val;
      SplitOnceKeyed(key[1..], val);
      assert [key[0]] + key[1..] == key;
    }
  }

  lemma {:induction false} SplitJoin(names: seq<Bytes>)
    requires names != []
    requires forall n :: n in names ==> SPACE !in n
    ensures Split(Join(names), SPACE) == names
    decreases |names|
  {
    if |names| == 1 {
      assert names[0] in names;
      SplitPiece(names[0], [], SPACE);
    } else {
      var rest := Join(names[1..]);
      assert names[0] in names && forall n :: n in names[1..] ==> n in names;
      SplitJoin(names[1..]);
      SplitPiece(names[0], rest, SPACE);
      assert Split(names[0] + [SPACE] + rest, SPACE) == [names[0]] + names[1..] == names;
    }
  }

  lemma {:induction false} HashesOfNames(names: seq<Bytes>)
    requires forall n :: n in names ==> FromName(n).Some?
    ensures HashesOf(names) == Record(DEFAULT, References(names)).references
    decreases |names|
  {
    if names == [] {
    } else {
      HashesOfNames(names[1..]);
      assert FromName(names[0]) == Some(StoreHash(FirstBytes(names[0])));
    }
  }

  /** Only the last three bytes decide whether there is space to trim. */
  lemma TrimEndByTail(s: Bytes, tail: Bytes)
    requires |tail| >= 3 && |s| >= |tail| && s[|s| - |tail|..] == tail
    requires TrimEnd(tail) == tail
    ensures TrimEnd(s) == s
  {
    assert s[|s| - 1] == tail[|tail| - 1] && s[|s| - 2] == tail[|tail| - 2] && s[|s| - 3] == tail[|tail| - 3];
    TrimEndShrinks(tail);
  }

  lemma {:induction false} TrimEndShrinks(s: Bytes)
    ensures |TrimEnd(s)| + SpaceSuffix(s) <= |s|
    decreases |s|
  {
    if SpaceSuffix(s) == 0 {
    } else {
      TrimEndShrinks(s[..|s| - SpaceSuffix(s)]);
    }
  }

  /** `s` ends with `tail`, and has no line break. */
  predicate OneLineEnding(s: Bytes, tail: Bytes) {
    NEWLINE !in s && |s| >= |tail| && s[|s| - |tail|..] == tail
  }

  lemma {:induction false} JoinEnds(names: seq<Bytes>)
    requires names != [] && forall n :: n in names ==> NEWLINE !in n
    ensures OneLineEnding(Join(names), names[|names| - 1])
    decreases |names|
  {
    if |names| == 1 {
      assert names[0] in names;
    } else {
      var rest, last := Join(names[1..]), names[|names| - 1];
      assert names[1..][|names| - 2] == last && names[0] in names;
      JoinEnds(names[1..]);
      var front := names[0] + [SPACE];
      assert Join(names) == front + rest;
      assert (front + rest)[|front| + |rest| - |last|..] == rest[|rest| - |last|..];
    }
  }

  lemma JoinPlain(names: seq<Bytes>)
    requires WellFormed(References(names))
    ensures Plain(Join(names))
  {
    if names != [] {
      var last := names[|names| - 1];
      assert last in names;
      JoinEnds(names);
      TrimEndByTail(Join(names), last);
    }
  }

  lemma ParseKeyed(info: NarInfo, key: Bytes, val: Bytes)
    requires COLON !in key && NEWLINE !in key && Plain(val)
    ensures NEWLINE !in key + [COLON, SPACE] + val
    ensures ParseLine(info, key + [COLON, SPACE] + val) == ParseField(info, key, val)
    ensures StripReturn(key + [COLON, SPACE] + val) == key + [COLON, SPACE] + val
  {
    SplitOnceKeyed(key, val);
    if val != [] {
      TrimEndShrinks(val);
    }
  }

  lemma ParseSize(n: uint64)
    ensures Plain(Decimal(n)) && ParseU64(Decimal(n)) == Some(n)
  {
    var s := Decimal(n);
    assert IsDigit(s[0]) && IsDigit(s[|s| - 1]);
  }

  lemma ParseReferences(info: NarInfo, names: seq<Bytes>)
    requires WellFormed(References(names))
    ensures Plain(Join(names))
    ensures ParseField(info, REFERENCES_KEY, Join(names)) == Record(info, References(names))
  {
    JoinPlain(names);
    if names != [] {
      SplitJoin(names);
      HashesOfNames(names);
    }
  }

  lemma KeysDiffer()
    ensures |URL_KEY| == 3 && |FILE_SIZE_KEY| == 8 && |REFERENCES_KEY| == 10
    ensures |NAR_SIZE_KEY| == 7 && |DERIVER_KEY| == 7 && NAR_SIZE_KEY[0] != DERIVER_KEY[0]
    ensures COLON !in URL_KEY && COLON !in FILE_SIZE_KEY && COLON !in REFERENCES_KEY
    ensures COLON !in NAR_SIZE_KEY && COLON !in DERIVER_KEY
    ensures NEWLINE !in URL_KEY && NEWLINE !in FILE_SIZE_KEY && NEWLINE !in REFERENCES_KEY
    ensures NEWLINE !in NAR_SIZE_KEY && NEWLINE !in DERIVER_KEY
  {
  }

  lemma ParseValue(info: NarInfo, val: Bytes)
    ensures ParseField(info, URL_KEY, val) == info.(url := Some(val))
    ensures ParseField(info, FILE_SIZE_KEY, val) == info.(fileSize := OrZero(ParseU64(val)))
    ensures ParseField(info, NAR_SIZE_KEY, val) == info.(narSize := OrZero(ParseU64(val)))
    ensures ParseField(info, DERIVER_KEY, val) == info.(deriver := FromName(val))
    ensures ParseField(info, REFERENCES_KEY, val) == info.(references := HashesOf(Split(val, SPACE)))
  {
    KeysDiffer();
  }

  lemma ParseRenderedSize(info: NarInfo, key: Bytes, n: uint64)
    requires COLON !in key && NEWLINE !in key
    ensures var line := key + [COLON, SPACE] + Decimal(n);
            NEWLINE !in line && ParseLine(info, StripReturn(line)) == ParseField(info, key, Decimal(n))
  {
    ParseSize(n);
    ParseKeyed(info, key, Decimal(n));
  }

  lemma ParseRenderedField(info: NarInfo, f: Field)
    requires WellFormed(f)
    ensures NEWLINE !in RenderField(f)
    ensures ParseLine(info, StripReturn(RenderField(f))) == Record(info, f)
  {
    KeysDiffer();
    match f
    case Url(v) =>
      ParseKeyed(info, URL_KEY, v);
    case FileSize(n) =>
      ParseSize(n);
      ParseRenderedSize(info, FILE_SIZE_KEY, n);
      ParseValue(info, Decimal(n));
    case NarSize(n) =>
      ParseSize(n);
      ParseRenderedSize(info, NAR_SIZE_KEY, n);
      ParseValue(info, Decimal(n));
    case Deriver(v) =>
      ParseKeyed(info, DERIVER_KEY, v);
      ParseValue(info, v);
    case References(names) =>
      ParseReferences(info, names);
      ParseKeyed(info, REFERENCES_KEY, Join(names));
    case Other(_) =>
  }

  lemma LinesOfRendered(line: Bytes, rest: Bytes)
    requires NEWLINE !in line
    ensures Lines(line + [NEWLINE] + rest) == [StripReturn(line)] + Lines(rest)
  {
    var s := line + [NEWLINE] + rest;
    var i := NewlineAt(s);
    assert s[|line|] == NEWLINE;
    assert forall j :: 0 <= j < |line| ==> s[j] == line[j] && line[j] in line;
    assert i == |line|;
    assert s[..i] == line && s[i + 1..] == rest;
  }

  /** `NarInfo::parse` recovers every field of a rendered file, whatever the order of the
      lines and whatever unrelated lines lie between them; a repeated key's last value wins. */
  lemma {:induction false} ParseUndoesRender(info: NarInfo, fields: seq<Field>)
    requires forall f :: f in fields ==> WellFormed(f)
    ensures ParseLines(info, Lines(Render(fields))) == RecordAll(info, fields)
    decreases |fields|
  {
    if fields == [] {
    } else {
      var line := RenderField(fields[0]);
      assert fields[0] in fields;
      ParseRenderedField(info, fields[0]);
      LinesOfRendered(line, Render(fields[1..]));
      var lines := Lines(Render(fields));
      assert lines[0] == StripReturn(line) && lines[1..] == Lines(Render(fields[1..]));
      ParseUndoesRender(Record(info, fields[0]), fields[1..]);
    }
  }

  predicate SameKey(f: Field, g: Field) {
    || (f.Url? && g.Url?)
    || (f.FileSize? && g.FileSize?)
    || (f.NarSize? && g.NarSize?)
    || (f.Deriver? && g.Deriver?)
    || (f.References? && g.References?)
  }

  /** `info` already says what `f` says. */
  predicate Says(info: NarInfo, f: Field) {
    Record(info, f) == info
  }

  lemma {:induction false} SaysKept(info: NarInfo, fields: seq<Field>, f: Field)
    requires forall g :: g in fields && SameKey(f, g) ==> g == f
    requires Says(info, f) || f in fields
    ensures Says(RecordAll(info, fields), f)
    decreases |fields|
  {
    if fields == [] {
    } else {
      var g := fields[0];
      assert g in fields;
      assert forall x :: x in fields[1..] ==> x in fields;
      assert f in fields ==> f == g || f in fields[1..];
      SaysKept(Record(info, g), fields[1..], f);
    }
  }

  /** A field whose key is not given a second value is read back, wherever its line stands. */
  lemma FieldRecovered(fields: seq<Field>, f: Field)
    requires forall g :: g in fields ==> WellFormed(g)
    requires f in fields && forall g :: g in fields && SameKey(f, g) ==> g == f
    ensures Says(Parse(Render(fields)), f)
  {
    ParseUndoesRender(DEFAULT, fields);
    SaysKept(DEFAULT, fields, f);
  }

  // ----- What the definitions mean, written out -----

  lemma CharsAreSpelled()
    ensures NEWLINE as char == '\n' && RETURN as char == '\r' && SPACE as char == ' ' && COLON as char == ':'
    ensures SLASH as char == '/' && DOT as char == '.'
  {
  }

  /** The line of a field, as `nix` writes it. */
  lemma FieldsAreSpelled(f: Field)
    ensures f.Url? ==> Spells(RenderField(f)[..5], "URL: ") && RenderField(f)[5..] == f.url
    ensures f.Deriver? ==> Spells(RenderField(f)[..9], "Deriver: ") && RenderField(f)[9..] == f.name
    ensures f.References? ==> Spells(RenderField(f)[..12], "References: ") && RenderField(f)[12..] == Join(f.names)
  {
  }

  lemma SizesAreSpelled(f: Field)
    ensures f.FileSize? ==> Spells(RenderField(f)[..10], "FileSize: ") && RenderField(f)[10..] == Decimal(f.size)
    ensures f.NarSize? ==> Spells(RenderField(f)[..9], "NarSize: ") && RenderField(f)[9..] == Decimal(f.size)
  {
  }

  /** What a field given one value is read back as, wherever its line stands: the URL and the sizes
      as they are, the hashes that the names begin with in their order, and the deriver's. */
  lemma FieldsRead(fields: seq<Field>, f: Field)
    requires forall g :: g in fields ==> WellFormed(g)
    requires f in fields && forall g :: g in fields && SameKey(f, g) ==> g == f
    ensures var info := Parse(Render(fields));
            match f
            case Url(v) => info.url == Some(v)
            case FileSize(n) => info.fileSize == n
            case NarSize(n) => info.narSize == n
            case Deriver(v) => forall h :: info.deriver == Some(h) <==> h.Valid() && h.bytes <= v
            case References(names) =>
              && |info.references| == |names|
              && forall i :: 0 <= i < |names| ==> info.references[i].Valid() && info.references[i].bytes <= names[i]
            case Other(_) => true
  {
    FieldRecovered(fields, f);
    var info := Parse(Render(fields));
    if f.References? {
      forall i | 0 <= i < |f.names| ensures info.references[i].Valid() && info.references[i].bytes <= f.names[i] {
        assert info.references[i] == StoreHash(FirstBytes(f.names[i]));
        assert f.names[i] in f.names && FromName(f.names[i]).Some?;
      }
    }
  }

  /** A field that no line gives keeps its default. */
  lemma {:induction false} AbsentFields(info: NarInfo, fields: seq<Field>)
    ensures var read := RecordAll(info, fields);
            && ((forall f :: f in fields ==> !f.Url?) ==> read.url == info.url)
            && ((forall f :: f in fields ==> !f.FileSize?) ==> read.fileSize == info.fileSize)
            && ((forall f :: f in fields ==> !f.NarSize?) ==> read.narSize == info.narSize)
            && ((forall f :: f in fields ==> !f.Deriver?) ==> read.deriver == info.deriver)
            && ((forall f :: f in fields ==> !f.References?) ==> read.references == info.references)
    decreases |fields|
  {
    if fields == [] {
    } else {
      AbsentFields(Record(info, fields[0]), fields[1..]);
      assert fields[0] in fields && forall f :: f in fields[1..] ==> f in fields;
    }
  }

  lemma NothingSaid()
    ensures var info := Parse([]);
            info.url == None && info.fileSize == 0 && info.narSize == 0 && info.references == [] && info.deriver == None
    ensures Parse([]) == DEFAULT
  {
    assert Lines([]) == [];
  }

  /** Decimal notation: each digit counts ten times what stands behind it. */
  lemma DigitsAreDecimal(s: Bytes, d: byte)
    requires AllDigits(s)
    ensures IsDigit(d) <==> '0' <= d as char <= '9'
    ensures IsDigit(d) ==> AllDigits(s + [d]) && DigitsValue(s + [d]) == 10 * DigitsValue(s) + (d as int - '0' as int)
    ensures DigitsValue([]) == 0
  {
    assert (s + [d])[..|s|] == s;
  }

  /** A size is digits below 2^64, with or without a plus sign; anything else reads as 0. */
  lemma SizesAreDecimal(s: Bytes, n: uint64)
    ensures ParseU64(s) == Some(n) <==>
            exists sign: Bytes, digits: Bytes :: s == sign + digits && (sign == [] || Spells(sign, "+")) && IsNumber(digits, n)
    ensures ParseU64(s).None? ==> OrZero(ParseU64(s)) == 0
    ensures U64_LIMIT == 0x1_0000_0000_0000_0000
  {
    if ParseU64(s) == Some(n) {
      if s != [] && s[0] == 43 {
        assert s == [43] + s[1..] && Spells([43], "+") && IsNumber(s[1..], n);
      } else {
        assert s == [] + s && IsNumber(s, n);
      }
    }
    if sign: Bytes, digits: Bytes :| s == sign + digits && (sign == [] || Spells(sign, "+")) && IsNumber(digits, n) {
      if sign == [] {
        assert s == digits && IsDigit(digits[0]);
      } else {
        assert sign == [43] && s[1..] == digits;
      }
    }
  }

  predicate IsNumber(digits: Bytes, n: uint64) {
    digits != [] && AllDigits(digits) && DigitsValue(digits) == n
  }

  /** The references are the hashes in the list, the successors those and the deriver. */
  lemma SuccessorsAreListed(info: NarInfo, h: StoreHash)
    ensures h in info.References() <==> h in info.references
    ensures h in info.Successors() <==> h in info.references || info.deriver == Some(h)
  {
  }

  /** The archive is named by what stands behind the last slash of the URL. */
  lemma ArchiveIsBaseName(info: NarInfo, dir: Bytes, name: Bytes)
    requires SLASH !in name && name != [] && name != [DOT] && name != [DOT, DOT]
    ensures info.url == Some(dir + [SLASH] + name) || info.url == Some(name) ==> info.Archive() == Some(name)
    ensures info.url == None ==> info.Archive() == None
  {
    FileNameIsBaseName(dir, name);
  }
}
