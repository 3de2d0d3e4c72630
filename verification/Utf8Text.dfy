/** What the text functions of `NarInfos` mean in characters: well-formed UTF-8, white space,
    lines and `key: value` pairs. */
module Utf8Text {
  import opened Wrappers
  import opened StoreHashes
  import opened NarInfos

  // ----- Characters -----

  /** The Unicode scalar values. */
  type Scalar = c: nat | c < 0x110000 && !(0xD800 <= c <= 0xDFFF)

  function Utf8(c: Scalar): Bytes {
    if c < 0x80 then [c]
    else if c < 0x800 then [0xC0 + c / 0x40, Tail(c)]
    else if c < 0x10000 then [0xE0 + c / 0x1000, Tail(c / 0x40), Tail(c)]
    else [0xF0 + c / 0x40000, Tail(c / 0x1000), Tail(c / 0x40), Tail(c)]
  }

  function Tail(c: nat): byte {
    0x80 + c % 0x40
  }

  function Utf8All(cs: seq<Scalar>): Bytes {
    if cs == [] then [] else Utf8(cs[0]) + Utf8All(cs[1..])
  }

  lemma Utf8Then(c: Scalar, s: Bytes)
    ensures IsUtf8(Utf8(c) + s) <==> IsUtf8(s)
  {
    var t := Utf8(c) + s;
    assert t[|Utf8(c)|..] == s;
  }

  lemma TwoBytes(a: byte, b: byte) returns (c: Scalar)
    requires 0xC2 <= a <= 0xDF && IsTail(b)
    ensures Utf8(c) == [a, b]
  {
    c := (a as nat - 0xC0) * 0x40 + (b as nat - 0x80);
  }

  lemma ThreeBytes(a: byte, b: byte, d: byte) returns (c: Scalar)
    requires 0xE0 <= a <= 0xEF && IsTail(b) && IsTail(d)
    requires (a == 0xE0 ==> b >= 0xA0) && (a == 0xED ==> b <= 0x9F)
    ensures Utf8(c) == [a, b, d]
  {
    var top := (a as nat - 0xE0) * 0x40 + (b as nat - 0x80);
    c := top * 0x40 + (d as nat - 0x80);
    assert c / 0x40 == top && c % 0x40 == d as nat - 0x80;
    assert top / 0x40 == a as nat - 0xE0 && c / 0x1000 == a as nat - 0xE0;
  }

  lemma FourBytes(a: byte, b: byte, d: byte, e: byte) returns (c: Scalar)
    requires 0xF0 <= a <= 0xF4 && IsTail(b) && IsTail(d) && IsTail(e)
    requires (a == 0xF0 ==> b >= 0x90) && (a == 0xF4 ==> b <= 0x8F)
    ensures Utf8(c) == [a, b, d, e]
  {
    var top := (a as nat - 0xF0) * 0x40 + (b as nat - 0x80);
    var mid := top * 0x40 + (d as nat - 0x80);
    c := mid * 0x40 + (e as nat - 0x80);
    assert c / 0x40 == mid && c % 0x40 == e as nat - 0x80;
    assert mid % 0x40 == d as nat - 0x80 && c / 0x1000 == top;
    assert top / 0x40 == a as nat - 0xF0 && c / 0x40000 == a as nat - 0xF0;
  }

  /** The character a well-formed text begins with. */
  lemma FirstChar(s: Bytes) returns (c: Scalar)
    requires s != [] && IsUtf8(s)
    ensures Utf8(c) <= s
  {
    if s[0] < 0x80 {
      c := s[0] as nat;
    } else if s[0] <= 0xDF {
      c := TwoBytes(s[0], s[1]);
    } else if s[0] <= 0xEF {
      c := ThreeBytes(s[0], s[1], s[2]);
    } else {
      c := FourBytes(s[0], s[1], s[2], s[3]);
    }
  }

  lemma {:induction false} Utf8IsWellFormed(cs: seq<Scalar>)
    ensures IsUtf8(Utf8All(cs))
    decreases |cs|
  {
    if cs == [] {
    } else {
      Utf8IsWellFormed(cs[1..]);
      Utf8Then(cs[0], Utf8All(cs[1..]));
    }
  }

  lemma {:induction false} CharsOf(s: Bytes) returns (cs: seq<Scalar>)
    requires IsUtf8(s)
    ensures s == Utf8All(cs)
    decreases |s|
  {
    if s == [] {
      cs := [];
    } else {
      var c := FirstChar(s);
      var rest := s[|Utf8(c)|..];
      assert s == Utf8(c) + rest;
      Utf8Then(c, rest);
      var more := CharsOf(rest);
      cs := [c] + more;
    }
  }

  /** Text is well-formed if and only if it encodes some characters. */
  lemma Utf8IsText(s: Bytes)
    ensures IsUtf8(s) <==> exists cs :: s == Utf8All(cs)
  {
    if IsUtf8(s) {
      var cs := CharsOf(s);
    }
    if cs :| s == Utf8All(cs) {
      Utf8IsWellFormed(cs);
    }
  }

  // ----- White space -----

  /** The characters with the White_Space property. */
  predicate White(c: Scalar) {
    || 0x09 <= c <= 0x0D || c == 0x20 || c == 0x85 || c == 0xA0 || c == 0x1680
    || 0x2000 <= c <= 0x200A || c == 0x2028 || c == 0x2029 || c == 0x202F || c == 0x205F || c == 0x3000
  }

  lemma SpaceSuffixOfChar(s: Bytes, c: Scalar)
    ensures SpaceSuffix(s + Utf8(c)) == if White(c) then |Utf8(c)| else 0
  {
    var t := s + Utf8(c);
    var n := |Utf8(c)|;
    assert forall i :: 0 <= i < n ==> t[|s| + i] == Utf8(c)[i];
  }

  /** Trimming takes away a last character if and only if it is white space. */
  lemma TrimEndOfChar(s: Bytes, c: Scalar)
    ensures TrimEnd(s + Utf8(c)) == if White(c) then TrimEnd(s) else s + Utf8(c)
  {
    SpaceSuffixOfChar(s, c);
    var t := s + Utf8(c);
    assert t[..|t| - |Utf8(c)|] == s;
  }

  lemma TrimEndOfNothing()
    ensures TrimEnd([]) == []
  {
  }

  // ----- Lines -----

  function Terminated(lines: seq<Bytes>): Bytes {
    if lines == [] then [] else lines[0] + [NEWLINE] + Terminated(lines[1..])
  }

  function Stripped(lines: seq<Bytes>): seq<Bytes> {
    if lines == [] then [] else [StripReturn(lines[0])] + Stripped(lines[1..])
  }

  lemma StripReturnTakesOne(line: Bytes)
    ensures StripReturn(line + [RETURN]) == line
    ensures line == [] || line[|line| - 1] != RETURN ==> StripReturn(line) == line
  {
  }

  /** Every line is read, a last one without its newline too. */
  lemma {:induction false} LinesOfText(lines: seq<Bytes>, last: Bytes)
    requires (forall l :: l in lines ==> NEWLINE !in l) && NEWLINE !in last
    ensures Lines(Terminated(lines) + last) == Stripped(lines) + if last == [] then [] else [last]
    decreases |lines|
  {
    if lines == [] {
      assert Terminated(lines) + last == last;
      if last != [] {
        assert NewlineAt(last) == |last| by {
          assert forall i :: 0 <= i < |last| ==> last[i] in last;
        }
      }
    } else {
      var rest := Terminated(lines[1..]) + last;
      assert lines[0] in lines && forall l :: l in lines[1..] ==> l in lines;
      assert Terminated(lines) + last == lines[0] + [NEWLINE] + rest;
      LinesOfRendered(lines[0], rest);
      LinesOfText(lines[1..], last);
    }
  }

  // ----- Pairs -----

  /** `": "` stands at `i`. */
  predicate PairAt(s: Bytes, i: nat) {
    i + 1 < |s| && s[i] == COLON && s[i + 1] == SPACE
  }

  lemma {:induction false} SplitOnceGives(s: Bytes)
    ensures SplitOnce(s).None? ==> forall i :: !PairAt(s, i)
    ensures SplitOnce(s).Some? ==>
              var (key, val) := SplitOnce(s).value;
              s == key + [COLON, SPACE] + val && forall i :: 0 <= i < |key| ==> !PairAt(s, i)
    decreases |s|
  {
    if |s| < 2 {
    } else if PairAt(s, 0) {
      var none: Bytes := [];
      assert s == none + [COLON, SPACE] + s[2..];
    } else {
      SplitOnceGives(s[1..]);
      assert forall i :: 1 <= i ==> (PairAt(s, i) <==> PairAt(s[1..], i - 1));
      if SplitOnce(s).Some? {
        var (key, val) := SplitOnce(s[1..]).value;
        assert s == [s[0]] + s[1..] == ([s[0]] + key) + [COLON, SPACE] + val;
      }
    }
  }

  lemma SamePlace(s: Bytes, key: Bytes, val: Bytes, key': Bytes, val': Bytes)
    requires s == key + [COLON, SPACE] + val && s == key' + [COLON, SPACE] + val' && |key| == |key'|
    ensures key == key' && val == val'
  {
    assert key == s[..|key|] && key' == s[..|key|];
    assert val == s[|key| + 2..] && val' == s[|key| + 2..];
  }

  /** A line is split at its first `": "`, if it has one. */
  lemma SplitOnceAtFirst(s: Bytes, key: Bytes, val: Bytes)
    ensures SplitOnce(s) == Some((key, val)) <==>
            s == key + [COLON, SPACE] + val && forall i :: 0 <= i < |key| ==> !PairAt(s, i)
  {
    SplitOnceGives(s);
    if s == key + [COLON, SPACE] + val && forall i :: 0 <= i < |key| ==> !PairAt(s, i) {
      assert PairAt(s, |key|);
      var (key', val') := SplitOnce(s).value;
      assert PairAt(s, |key'|);
      SamePlace(s, key, val, key', val');
    }
  }

  // ----- Metadata as it is found -----

  /** Text of graphic characters is a value as it is. */
  lemma GraphicIsPlain(v: Bytes)
    requires forall b :: b in v ==> 33 <= b <= 126
    ensures Plain(v) && IsUtf8(v)
  {
    if v != [] {
      assert v[|v| - 1] in v;
    }
    GraphicIsUtf8(v);
  }

  lemma {:induction false} GraphicIsUtf8(v: Bytes)
    requires forall b :: b in v ==> 33 <= b <= 126
    ensures IsUtf8(v)
    decreases |v|
  {
    if v == [] {
    } else {
      assert v[0] in v && forall b :: b in v[1..] ==> b in v;
      GraphicIsUtf8(v[1..]);
    }
  }

  /** A first character does not reach over an ASCII character. */
  lemma CharWithin(c: Scalar, a: Bytes, x: byte, b: Bytes)
    requires a != [] && x < 0x80 && Utf8(c) <= a + [x] + b
    ensures Utf8(c) <= a
  {
    var s, n := a + [x] + b, |Utf8(c)|;
    assert forall i :: 1 <= i < n ==> Utf8(c)[i] >= 0x80;
    assert s[|a|] == x;
    if n <= |a| {
      assert s[..n] == a[..n];
    }
  }

  lemma FirstCharBefore(a: Bytes, x: byte, b: Bytes) returns (c: Scalar, rest: Bytes)
    requires IsUtf8(a + [x] + b) && x < 0x80 && a != []
    ensures a == Utf8(c) + rest && IsUtf8(rest + [x] + b)
  {
    c := FirstChar(a + [x] + b);
    CharWithin(c, a, x, b);
    rest := a[|Utf8(c)|..];
    assert a + [x] + b == Utf8(c) + (rest + [x] + b);
    Utf8Then(c, rest + [x] + b);
  }

  lemma AsciiThen(x: byte, b: Bytes)
    requires x < 0x80
    ensures IsUtf8([] + [x] + b) <==> IsUtf8(b)
  {
    assert ([] + [x] + b)[1..] == b;
  }

  /** So every field with such values has a line to be read back from. */
  lemma FieldsAreWellFormed(v: Bytes, n: uint64, names: seq<Bytes>)
    requires forall b :: b in v ==> 33 <= b <= 126
    requires forall name, b :: name in names && b in name ==> 33 <= b <= 126
    requires forall name :: name in names ==> exists h: StoreHash :: h.Valid() && h.bytes <= name
    ensures WellFormed(Url(v)) && WellFormed(Deriver(v)) && WellFormed(FileSize(n)) && WellFormed(NarSize(n))
    ensures WellFormed(References(names))
  {
    GraphicIsPlain(v);
    forall name | name in names ensures Plain(name) && SPACE !in name && FromName(name).Some? {
      GraphicIsPlain(name);
      var h: StoreHash :| h.Valid() && h.bytes <= name;
      assert FromName(name) == Some(h);
    }
  }

  /** And lines with another key, or without a colon, are passed over. */
  lemma OtherLinesAreUnrelated(key: Bytes, v: Bytes)
    requires NEWLINE !in key + v && COLON !in key && key !in {URL_KEY, FILE_SIZE_KEY, NAR_SIZE_KEY, DERIVER_KEY, REFERENCES_KEY}
    ensures WellFormed(Other(key + [COLON, SPACE] + v))
  {
    var line := key + [COLON, SPACE] + v;
    SplitOnceKeyed(key, v);
    if v != [] && v[|v| - 1] == RETURN {
      var v' := v[..|v| - 1];
      assert StripReturn(line) == key + [COLON, SPACE] + v';
      SplitOnceKeyed(key, v');
    } else {
      assert StripReturn(line) == line;
    }
  }

  lemma SplitNeedsColon(s: Bytes)
    ensures SplitOnce(s).Some? ==> COLON in s
  {
    SplitOnceGives(s);
    if SplitOnce(s).Some? {
      assert s[|SplitOnce(s).value.0|] == COLON;
    }
  }

  lemma KeylessLinesAreUnrelated(line: Bytes)
    requires NEWLINE !in line && COLON !in line
    ensures WellFormed(Other(line))
  {
    var s := StripReturn(line);
    SplitNeedsColon(s);
    assert COLON !in s;
  }

  /** Text is cut into text at any ASCII character. */
  lemma {:induction false} CutAtAscii(a: Bytes, x: byte, b: Bytes)
    requires IsUtf8(a + [x] + b) && x < 0x80
    ensures IsUtf8(a) && IsUtf8(b)
    decreases |a|
  {
    if a == [] {
      AsciiThen(x, b);
    } else {
      var c, rest := FirstCharBefore(a, x, b);
      CutAtAscii(rest, x, b);
      Utf8Then(c, rest);
    }
  }

  /** Trimming leaves text. */
  lemma {:induction false} TrimEndIsText(cs: seq<Scalar>)
    ensures IsUtf8(TrimEnd(Utf8All(cs)))
    decreases |cs|
  {
    if cs == [] {
    } else {
      var front, c := cs[..|cs| - 1], cs[|cs| - 1];
      assert cs == front + [c];
      Utf8AllSnoc(front, c);
      TrimEndOfChar(Utf8All(front), c);
      TrimEndIsText(front);
      Utf8IsWellFormed(cs);
    }
  }

  lemma {:induction false} Utf8AllSnoc(cs: seq<Scalar>, c: Scalar)
    ensures Utf8All(cs + [c]) == Utf8All(cs) + Utf8(c)
    decreases |cs|
  {
    if cs == [] {
      var one: seq<Scalar> := [c];
      assert cs + [c] == one && one[1..] == [];
    } else {
      assert (cs + [c])[1..] == cs[1..] + [c];
      Utf8AllSnoc(cs[1..], c);
    }
  }

  lemma TrimmedIsText(s: Bytes)
    requires IsUtf8(s)
    ensures IsUtf8(TrimEnd(s))
  {
    var cs := CharsOf(s);
    TrimEndIsText(cs);
  }

  lemma {:induction false} LinesAreText(s: Bytes)
    requires IsUtf8(s)
    ensures forall l :: l in Lines(s) ==> IsUtf8(l)
    decreases |s|
  {
    if s == [] {
    } else {
      var i := NewlineAt(s);
      if i < |s| {
        assert s == s[..i] + [NEWLINE] + s[i + 1..];
        CutAtAscii(s[..i], NEWLINE, s[i + 1..]);
        LinesAreText(s[i + 1..]);
        var line := s[..i];
        if line != [] && line[i - 1] == RETURN {
          assert line == line[..i - 1] + [RETURN] + [];
          CutAtAscii(line[..i - 1], RETURN, []);
        }
      }
    }
  }

  lemma ValueIsText(line: Bytes)
    requires IsUtf8(line)
    ensures SplitOnce(line).Some? ==> IsUtf8(TrimEnd(SplitOnce(line).value.1))
  {
    SplitOnceGives(line);
    if SplitOnce(line).Some? {
      var (key, rest) := SplitOnce(line).value;
      assert line == (key + [COLON]) + [SPACE] + rest;
      CutAtAscii(key + [COLON], SPACE, rest);
      TrimmedIsText(rest);
    }
  }

  lemma ParsedFieldIsValid(info: NarInfo, key: Bytes, val: Bytes)
    requires info.Valid() && IsUtf8(val)
    ensures ParseField(info, key, val).Valid()
  {
  }

  lemma ParsedLineIsValid(info: NarInfo, line: Bytes)
    requires info.Valid() && IsUtf8(line)
    ensures ParseLine(info, line).Valid()
  {
    ValueIsText(line);
    if SplitOnce(line).Some? {
      ParsedFieldIsValid(info, SplitOnce(line).value.0, TrimEnd(SplitOnce(line).value.1));
    }
  }

  lemma {:induction false} ParsedLinesAreValid(info: NarInfo, lines: seq<Bytes>)
    requires info.Valid() && forall l :: l in lines ==> IsUtf8(l)
    ensures ParseLines(info, lines).Valid()
    decreases |lines|
  {
    if lines == [] {
    } else {
      assert lines[0] in lines && forall l :: l in lines[1..] ==> l in lines;
      ParsedLineIsValid(info, lines[0]);
      ParsedLinesAreValid(ParseLine(info, lines[0]), lines[1..]);
    }
  }

  /** Whatever text a narinfo holds, its metadata is what the field types allow. */
  lemma ParsedIsValid(buf: Bytes)
    requires IsUtf8(buf)
    ensures Parse(buf).Valid()
  {
    LinesAreText(buf);
    ParsedLinesAreValid(DEFAULT, Lines(buf));
  }
}
