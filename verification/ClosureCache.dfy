/** `src/closure_cache.rs`: the binary file that remembers parsed metadata between runs. */
module ClosureCache {
  import opened Wrappers
  import opened StoreHashes
  import opened NarInfos

  const MAGIC: Bytes := [78, 67, 67, 67, 76, 79, 83, 1]
  const U16_MAX: nat := 65535

  type Map = map<StoreHash, NarInfo>

  // ----- Writing -----

  /** `n` in `k` little-endian bytes. */
  function LeBytes(n: nat, k: nat): (b: Bytes)
    ensures |b| == k
  {
    if k == 0 then [] else [n % 256] + LeBytes(n / 256, k - 1)
  }

  /** What the file keeps of a URL: nothing if it is empty or too long. */
  function StoredUrl(url: Option<Bytes>): Bytes {
    if url.Some? && |url.value| <= U16_MAX then url.value else []
  }

  function StoredRefs(refs: seq<StoreHash>): seq<StoreHash> {
    if |refs| <= U16_MAX then refs else refs[..U16_MAX]
  }

  function EncodeHashes(hs: seq<StoreHash>): Bytes {
    if hs == [] then [] else hs[0].bytes + EncodeHashes(hs[1..])
  }

  function EncodeDeriver(d: Option<StoreHash>): Bytes {
    if d.Some? then [1] + d.value.bytes else [0]
  }

  function EncodeUrl(url: Bytes): Bytes {
    LeBytes(|url|, 2) + url
  }

  function EncodeRefs(refs: seq<StoreHash>): Bytes {
    LeBytes(|refs|, 2) + EncodeHashes(refs)
  }

  function EncodeRecord(e: Entry): (b: Bytes)
    ensures b != []
  {
    e.0.bytes + (EncodeUrl(StoredUrl(e.1.url)) + (LeBytes(e.1.fileSize, 8) + (LeBytes(e.1.narSize, 8) +
      (EncodeDeriver(e.1.deriver) + EncodeRefs(StoredRefs(e.1.references))))))
  }

  function EncodeRecords(infos: seq<Entry>): Bytes {
    if infos == [] then [] else EncodeRecord(infos[0]) + EncodeRecords(infos[1..])
  }

  function Encode(infos: seq<Entry>): Bytes {
    MAGIC + EncodeRecords(infos)
  }

  lemma {:induction false} EncodeHashesSnoc(hs: seq<StoreHash>, h: StoreHash)
    ensures EncodeHashes(hs + [h]) == EncodeHashes(hs) + h.bytes
    decreases |hs|
  {
    if hs == [] {
    } else {
      assert (hs + [h])[1..] == hs[1..] + [h];
      EncodeHashesSnoc(hs[1..], h);
    }
  }

  lemma {:induction false} EncodeRecordsSnoc(infos: seq<Entry>, e: Entry)
    ensures EncodeRecords(infos + [e]) == EncodeRecords(infos) + EncodeRecord(e)
    decreases |infos|
  {
    if infos == [] {
    } else {
      assert (infos + [e])[1..] == infos[1..] + [e];
      EncodeRecordsSnoc(infos[1..], e);
    }
  }

  lemma Regroup(s: Bytes, hash: Bytes, url: Bytes, fileSize: Bytes, narSize: Bytes, deriver: Bytes, refs: Bytes)
    ensures s + hash + url + fileSize + narSize + deriver + refs ==
            s + (hash + (url + (fileSize + (narSize + (deriver + refs)))))
  {
  }

  lemma Append2(s: Bytes, a: Bytes, b: Bytes)
    ensures s + a + b == s + (a + b)
  {
  }

  /** `save`, up to the rename that puts the buffer in place. */
  method Save(infos: seq<Entry>) returns (buf: Bytes)
    ensures buf == Encode(infos)
  {
    buf := MAGIC;
    for i := 0 to |infos|
      invariant buf == Encode(infos[..i])
    {
      ghost var start := buf;
      buf := SaveRecord(buf, infos[i].0, infos[i].1);
      assert infos[..i + 1] == infos[..i] + [infos[i]];
      EncodeRecordsSnoc(infos[..i], infos[i]);
      Append2(MAGIC, EncodeRecords(infos[..i]), EncodeRecord(infos[i]));
    }
    assert infos[..|infos|] == infos;
  }

  /** The body of `save`'s loop. */
  method SaveRecord(start: Bytes, hash: StoreHash, info: NarInfo) returns (buf: Bytes)
    ensures buf == start + EncodeRecord((hash, info))
  {
    buf := start + hash.bytes;
    var url := if info.url.Some? then info.url.value else [];
    var urlLen := if |url| <= U16_MAX then |url| else 0;
    ghost var beforeUrl := buf;
    buf := buf + LeBytes(urlLen, 2);
    buf := buf + url[..urlLen];
    assert url[..urlLen] == StoredUrl(info.url);
    Append2(beforeUrl, LeBytes(urlLen, 2), url[..urlLen]);
    assert buf == beforeUrl + EncodeUrl(StoredUrl(info.url));
    buf := buf + LeBytes(info.fileSize, 8);
    buf := buf + LeBytes(info.narSize, 8);
    if info.deriver.Some? {
      ghost var beforeDeriver := buf;
      buf := buf + [1];
      buf := buf + info.deriver.value.bytes;
      Append2(beforeDeriver, [1], info.deriver.value.bytes);
    } else {
      buf := buf + [0];
    }
    ghost var beforeRefs := buf;
    var n := if |info.references| <= U16_MAX then |info.references| else U16_MAX;
    buf := buf + LeBytes(n, 2);
    buf := SaveHashes(buf, StoredRefs(info.references));
    Append2(beforeRefs, LeBytes(n, 2), EncodeHashes(StoredRefs(info.references)));
    Regroup(start, hash.bytes, EncodeUrl(StoredUrl(info.url)), LeBytes(info.fileSize, 8), LeBytes(info.narSize, 8),
            EncodeDeriver(info.deriver), EncodeRefs(StoredRefs(info.references)));
  }

  method SaveHashes(start: Bytes, refs: seq<StoreHash>) returns (buf: Bytes)
    ensures buf == start + EncodeHashes(refs)
  {
    buf := start;
    for j := 0 to |refs|
      invariant buf == start + EncodeHashes(refs[..j])
    {
      assert refs[..j + 1] == refs[..j] + [refs[j]];
      EncodeHashesSnoc(refs[..j], refs[j]);
      buf := buf + refs[j].bytes;
    }
    assert refs[..|refs|] == refs;
  }

  /** The cache file and the temporary file beside it. `past` records what has been at the cache
      file's path, `faults` counts the file operations that failed. */
  class CacheFile {
    var file: Option<Bytes>
    var tmp: Option<Bytes>
    ghost var past: seq<Option<Bytes>>
    ghost var faults: nat

    constructor (file: Option<Bytes>)
      ensures this.file == file && past == [file] && faults == 0
    {
      this.file, tmp, past, faults := file, None, [file], 0;
    }

    /** Whether the next file operation succeeds. */
    method Succeeds() returns (ok: bool)
      modifies this`faults
      ensures faults == old(faults) + if ok then 0 else 1
    {
      ok := *;
      faults := if ok then faults else faults + 1;
    }

    /** `save` to the end: the buffer goes to the temporary file in pieces, then takes the cache
        file's place. Whoever reads the path finds the old file or all of the new one, and in the
        end the new one unless a file operation failed. */
    method SaveFile(infos: seq<Entry>) returns (ok: bool)
      requires past == [file]
      modifies this
      ensures file == if ok then Some(Encode(infos)) else old(file)
      ensures forall i :: 0 <= i < |past| ==> past[i] == old(file) || past[i] == Some(Encode(infos))
      ensures ok <==> faults == old(faults)
    {
      var buf := Save(infos);
      ok := true;
      for n := 0 to |buf| + 1
        invariant file == old(file) && forall i :: 0 <= i < |past| ==> past[i] == old(file)
        invariant ok && faults == old(faults) && (n > 0 ==> tmp == Some(buf[..n - 1]))
      {
        ok := Succeeds();
        if !ok {
          return;
        }
        tmp := Some(buf[..n]);
        past := past + [file];
      }
      assert buf[..|buf|] == buf;
      ok := Succeeds();
      if ok {
        file, tmp := tmp, None;
        past := past + [file];
      }
    }
  }

  // ----- Reading -----

  function Take(r: Bytes, n: nat): (res: Option<(Bytes, Bytes)>)
    ensures res.Some? ==> r == res.value.0 + res.value.1 && |res.value.0| == n
    ensures res.Some? <==> n <= |r|
  {
    if |r| < n then None else Some((r[..n], r[n..]))
  }

  function LeValue(b: Bytes): nat {
    if b == [] then 0 else b[0] as nat + 256 * LeValue(b[1..])
  }

  function ReadLe(r: Bytes, k: nat): Option<(nat, Bytes)> {
    var (b, r') :- Take(r, k);
    Some((LeValue(b), r'))
  }

  function ReadU64(r: Bytes): Option<(uint64, Bytes)> {
    var (b, r') :- Take(r, 8);
    LeBound(b);
    Some((LeValue(b), r'))
  }

  function ReadHash(r: Bytes): Option<(StoreHash, Bytes)> {
    var (b, r') :- Take(r, HASH_LEN);
    var h :- FromBytes(b);
    Some((h, r'))
  }

  function ReadUrl(r: Bytes): Option<(Option<Bytes>, Bytes)> {
    var (len, r1) :- ReadLe(r, 2);
    if len == 0 then Some((None, r1))
    else
      var (url, r2) :- Take(r1, len);
      if IsUtf8(url) then Some((Some(url), r2)) else None
  }

  /** An invalid deriver is dropped, not refused (closure_cache.rs:62). */
  function ReadDeriver(r: Bytes): Option<(Option<StoreHash>, Bytes)> {
    var (tag, r1) :- Take(r, 1);
    if tag[0] == 0 then Some((None, r1))
    else
      var (b, r2) :- Take(r1, HASH_LEN);
      Some((FromBytes(b), r2))
  }

  function ReadHashes(r: Bytes, n: nat): Option<(seq<StoreHash>, Bytes)>
    decreases n
  {
    if n == 0 then Some(([], r))
    else
      var (h, r1) :- ReadHash(r);
      var (hs, r2) :- ReadHashes(r1, n - 1);
      Some(([h] + hs, r2))
  }

  function ReadRefs(r: Bytes): Option<(seq<StoreHash>, Bytes)> {
    var (n, r1) :- ReadLe(r, 2);
    ReadHashes(r1, n)
  }

  function DecodeRecord(r: Bytes): Option<(Entry, Bytes)> {
    var (hash, r1) :- ReadHash(r);
    var (url, r2) :- ReadUrl(r1);
    var (fileSize, r3) :- ReadU64(r2);
    var (narSize, r4) :- ReadU64(r3);
    var (deriver, r5) :- ReadDeriver(r4);
    var (refs, r6) :- ReadRefs(r5);
    Some(((hash, NarInfo(url, fileSize, narSize, refs, deriver)), r6))
  }

  lemma {:induction false} LeBound(b: Bytes)
    requires |b| == 8
    ensures LeValue(b) < U64_LIMIT
  {
    assert LeValue(b[8..]) == 0;
    assert LeValue(b[7..]) < 0x100 by { assert b[7..][1..] == b[8..]; }
    assert LeValue(b[6..]) < 0x1_0000 by { assert b[6..][1..] == b[7..]; }
    assert LeValue(b[5..]) < 0x100_0000 by { assert b[5..][1..] == b[6..]; }
    assert LeValue(b[4..]) < 0x1_0000_0000 by { assert b[4..][1..] == b[5..]; }
    assert LeValue(b[3..]) < 0x100_0000_0000 by { assert b[3..][1..] == b[4..]; }
    assert LeValue(b[2..]) < 0x1_0000_0000_0000 by { assert b[2..][1..] == b[3..]; }
    assert LeValue(b[1..]) < 0x100_0000_0000_0000 by { assert b[1..][1..] == b[2..]; }
  }

  function DecodeRecords(r: Bytes, acc: Map): Option<Map>
    decreases |r|
  {
    if r == [] then Some(acc)
    else
      var (e, rest) :- DecodeRecord(r);
      DecodeShrinks(r);
      DecodeRecords(rest, acc[e.0 := e.1])
  }

  function Decode(buf: Bytes): Option<Map> {
    var (magic, r) :- Take(buf, 8);
    if magic != MAGIC then None else DecodeRecords(r, map[])
  }

  lemma {:induction false} ReadHashesShrinks(r: Bytes, n: nat)
    ensures ReadHashes(r, n).Some? ==> |ReadHashes(r, n).value.1| <= |r|
    decreases n
  {
    if n == 0 || ReadHash(r).None? {
    } else {
      ReadHashesShrinks(ReadHash(r).value.1, n - 1);
    }
  }

  lemma DecodeShrinks(r: Bytes)
    ensures DecodeRecord(r).Some? ==> |DecodeRecord(r).value.1| < |r|
  {
    if DecodeRecord(r).Some? {
      var (_, r1) := ReadHash(r).value;
      var (_, r2) := ReadUrl(r1).value;
      var (_, r3) := ReadU64(r2).value;
      var (_, r4) := ReadU64(r3).value;
      var (_, r5) := ReadDeriver(r4).value;
      var (n, r6) := ReadLe(r5, 2).value;
      ReadHashesShrinks(r6, n);
    }
  }

  /** `try_load`; no file is `None`. */
  method TryLoad(file: Option<Bytes>) returns (m: Option<Map>)
    ensures m == if file.None? then None else Decode(file.value)
  {
    var buf :- file;
    var magic :- Take(buf, 8);
    if magic.0 != MAGIC {
      return None;
    }
    var r := magic.1;
    var found: Map := map[];
    while r != []
      invariant DecodeRecords(r, found) == Decode(buf)
      decreases |r|
    {
      DecodeShrinks(r);
      var hash :- ReadHash(r);
      var url :- ReadUrl(hash.1);
      var fileSize :- ReadU64(url.1);
      var narSize :- ReadU64(fileSize.1);
      var deriver :- ReadDeriver(narSize.1);
      var refs :- ReadRefs(deriver.1);
      found := found[hash.0 := NarInfo(url.0, fileSize.0, narSize.0, refs.0, deriver.0)];
      r := refs.1;
    }
    return Some(found);
  }

  /** `load`: whatever goes wrong, the cache is just empty. */
  method Load(file: Option<Bytes>) returns (m: Map)
    ensures m == if file.Some? && Decode(file.value).Some? then Decode(file.value).value else map[]
  {
    var r := TryLoad(file);
    if r.Some? { m := r.value; } else { m := map[]; }
  }

  // ----- Loading undoes saving -----

  /** What a record holds after a round trip. */
  function Stored(info: NarInfo): NarInfo {
    var url := StoredUrl(info.url);
    info.(url := if url == [] then None else Some(url), references := StoredRefs(info.references))
  }

  /** The entries that survive unchanged. */
  predicate Fits(info: NarInfo) {
    && (info.url.Some? ==> 0 < |info.url.value| <= U16_MAX)
    && |info.references| <= U16_MAX
  }

  lemma StoredIsIdentity(info: NarInfo)
    ensures Stored(info) == info <==> Fits(info)
    ensures Fits(info) <==> (info.url.Some? ==> 0 < |info.url.value| <= 65535) && |info.references| <= 65535
  {
  }

  /** Later entries for a hash replace earlier ones. */
  function Collect(infos: seq<Entry>, acc: Map): Map
    decreases |infos|
  {
    if infos == [] then acc else Collect(infos[1..], acc[infos[0].0 := Stored(infos[0].1)])
  }

  predicate ValidEntry(e: Entry) {
    e.0.Valid() && e.1.Valid()
  }

  lemma {:induction false} LeRoundTrip(n: nat, k: nat)
    requires n < Pow256(k)
    ensures LeValue(LeBytes(n, k)) == n
    decreases k
  {
    if k == 0 {
    } else {
      LeRoundTrip(n / 256, k - 1);
      assert LeBytes(n, k)[1..] == LeBytes(n / 256, k - 1);
    }
  }

  function Pow256(k: nat): (p: nat)
    ensures p > 0
  {
    if k == 0 then 1 else 256 * Pow256(k - 1)
  }

  lemma TakeAppend(a: Bytes, rest: Bytes)
    ensures Take(a + rest, |a|) == Some((a, rest))
  {
    assert (a + rest)[..|a|] == a && (a + rest)[|a|..] == rest;
  }

  lemma ReadU16Encoded(n: nat, rest: Bytes)
    requires n <= U16_MAX
    ensures ReadLe(LeBytes(n, 2) + rest, 2) == Some((n, rest))
  {
    TakeAppend(LeBytes(n, 2), rest);
    assert Pow256(2) == 65536;
    LeRoundTrip(n, 2);
  }

  lemma ReadU64Encoded(n: uint64, rest: Bytes)
    ensures ReadU64(LeBytes(n, 8) + rest) == Some((n, rest))
  {
    TakeAppend(LeBytes(n, 8), rest);
    assert Pow256(4) == 0x1_0000_0000;
    assert Pow256(8) == U64_LIMIT;
    LeRoundTrip(n, 8);
  }

  lemma ReadHashEncoded(h: StoreHash, rest: Bytes)
    requires h.Valid()
    ensures ReadHash(h.bytes + rest) == Some((h, rest))
  {
    TakeAppend(h.bytes, rest);
  }

  lemma ReadUrlEncoded(url: Bytes, rest: Bytes)
    requires |url| <= U16_MAX && IsUtf8(url)
    ensures ReadUrl(EncodeUrl(url) + rest) == Some((if url == [] then None else Some(url), rest))
  {
    Append2(LeBytes(|url|, 2), url, rest);
    ReadU16Encoded(|url|, url + rest);
    TakeAppend(url, rest);
    if url == [] {
      assert url + rest == rest;
    } else {
      assert Take(url + rest, |url|) == Some((url, rest));
    }
  }

  lemma ReadDeriverEncoded(d: Option<StoreHash>, rest: Bytes)
    requires d.Some? ==> d.value.Valid()
    ensures ReadDeriver(EncodeDeriver(d) + rest) == Some((d, rest))
  {
    if d.Some? {
      assert EncodeDeriver(d) + rest == [1] + (d.value.bytes + rest);
      TakeAppend([1], d.value.bytes + rest);
      TakeAppend(d.value.bytes, rest);
    } else {
      TakeAppend([0], rest);
    }
  }

  lemma {:induction false} ReadHashesEncoded(hs: seq<StoreHash>, rest: Bytes)
    requires forall i :: 0 <= i < |hs| ==> hs[i].Valid()
    ensures ReadHashes(EncodeHashes(hs) + rest, |hs|) == Some((hs, rest))
    decreases |hs|
  {
    if hs == [] {
      assert EncodeHashes(hs) + rest == rest;
    } else {
      Append2(hs[0].bytes, EncodeHashes(hs[1..]), rest);
      ReadHashEncoded(hs[0], EncodeHashes(hs[1..]) + rest);
      ReadHashesEncoded(hs[1..], rest);
      assert [hs[0]] + hs[1..] == hs;
    }
  }

  lemma ReadRefsEncoded(refs: seq<StoreHash>, rest: Bytes)
    requires |refs| <= U16_MAX && forall i :: 0 <= i < |refs| ==> refs[i].Valid()
    ensures ReadRefs(EncodeRefs(refs) + rest) == Some((refs, rest))
  {
    assert EncodeRefs(refs) + rest == LeBytes(|refs|, 2) + (EncodeHashes(refs) + rest);
    ReadU16Encoded(|refs|, EncodeHashes(refs) + rest);
    ReadHashesEncoded(refs, rest);
  }

  lemma RegroupTail(hash: Bytes, url: Bytes, fileSize: Bytes, narSize: Bytes, deriver: Bytes, refs: Bytes, rest: Bytes)
    ensures (hash + (url + (fileSize + (narSize + (deriver + refs))))) + rest ==
            hash + (url + (fileSize + (narSize + (deriver + (refs + rest)))))
  {
  }

  lemma DecodeEncodedRecord(e: Entry, rest: Bytes)
    requires ValidEntry(e)
    ensures DecodeRecord(EncodeRecord(e) + rest) == Some(((e.0, Stored(e.1)), rest))
  {
    var url, refs := StoredUrl(e.1.url), StoredRefs(e.1.references);
    var t6 := EncodeRefs(refs) + rest;
    var t5 := EncodeDeriver(e.1.deriver) + t6;
    var t4 := LeBytes(e.1.narSize, 8) + t5;
    var t3 := LeBytes(e.1.fileSize, 8) + t4;
    var t2 := EncodeUrl(url) + t3;
    RegroupTail(e.0.bytes, EncodeUrl(url), LeBytes(e.1.fileSize, 8), LeBytes(e.1.narSize, 8),
                EncodeDeriver(e.1.deriver), EncodeRefs(refs), rest);
    ReadHashEncoded(e.0, t2);
    ReadUrlEncoded(url, t3);
    ReadU64Encoded(e.1.fileSize, t4);
    ReadU64Encoded(e.1.narSize, t5);
    ReadDeriverEncoded(e.1.deriver, t6);
    ReadRefsEncoded(refs, rest);
  }

  lemma {:induction false} DecodeEncodedRecords(infos: seq<Entry>, acc: Map)
    requires forall e :: e in infos ==> ValidEntry(e)
    ensures DecodeRecords(EncodeRecords(infos), acc) == Some(Collect(infos, acc))
    decreases |infos|
  {
    if infos == [] {
    } else {
      var e := infos[0];
      assert e in infos;
      DecodeEncodedRecord(e, EncodeRecords(infos[1..]));
      DecodeEncodedRecords(infos[1..], acc[e.0 := Stored(e.1)]);
    }
  }

  /** Loading what `save` wrote gives every entry back, in its stored form. */
  lemma LoadUndoesSave(infos: seq<Entry>)
    requires forall e :: e in infos ==> ValidEntry(e)
    ensures Decode(Encode(infos)) == Some(Collect(infos, map[]))
  {
    TakeAppend(MAGIC, EncodeRecords(infos));
    DecodeEncodedRecords(infos, map[]);
  }

  predicate Distinct(infos: seq<Entry>) {
    forall i, j :: 0 <= i < j < |infos| ==> infos[i].0 != infos[j].0
  }

  lemma {:induction false} CollectDistinct(infos: seq<Entry>, acc: Map)
    requires Distinct(infos)
    ensures forall h :: h in Collect(infos, acc) <==> h in acc || exists i :: 0 <= i < |infos| && infos[i].0 == h
    ensures forall i :: 0 <= i < |infos| ==> Collect(infos, acc)[infos[i].0] == Stored(infos[i].1)
    ensures forall h :: h in acc && (forall i :: 0 <= i < |infos| ==> infos[i].0 != h) ==> Collect(infos, acc)[h] == acc[h]
    decreases |infos|
  {
    if infos == [] {
    } else {
      var acc' := acc[infos[0].0 := Stored(infos[0].1)];
      CollectDistinct(infos[1..], acc');
      assert forall i :: 0 < i < |infos| ==> infos[i] == infos[1..][i - 1];
    }
  }

  /** For a list with distinct hashes: exactly these hashes, each with its stored metadata,
      which is the metadata itself when it fits. */
  lemma LoadedMapIsSavedList(infos: seq<Entry>)
    requires (forall e :: e in infos ==> ValidEntry(e)) && Distinct(infos)
    ensures Decode(Encode(infos)).Some?
    ensures var m := Decode(Encode(infos)).value;
            && (forall h :: h in m <==> exists i :: 0 <= i < |infos| && infos[i].0 == h)
            && (forall i :: 0 <= i < |infos| ==> m[infos[i].0] == Stored(infos[i].1))
            && (forall i :: 0 <= i < |infos| && Fits(infos[i].1) ==> m[infos[i].0] == infos[i].1)
  {
    LoadUndoesSave(infos);
    CollectDistinct(infos, map[]);
  }

  // ----- Self-delimiting records -----

  lemma TakeExtends(r: Bytes, n: nat, ext: Bytes)
    requires Take(r, n).Some?
    ensures Take(r + ext, n) == Some((Take(r, n).value.0, Take(r, n).value.1 + ext))
  {
    assert (r + ext)[..n] == r[..n] && (r + ext)[n..] == r[n..] + ext;
  }

  lemma {:induction false} ReadHashesExtends(r: Bytes, n: nat, ext: Bytes)
    requires ReadHashes(r, n).Some?
    ensures ReadHashes(r + ext, n) == Some((ReadHashes(r, n).value.0, ReadHashes(r, n).value.1 + ext))
    decreases n
  {
    if n == 0 {
    } else {
      TakeExtends(r, HASH_LEN, ext);
      ReadHashesExtends(ReadHash(r).value.1, n - 1, ext);
    }
  }

  lemma ReadUrlExtends(r: Bytes, ext: Bytes)
    requires ReadUrl(r).Some?
    ensures ReadUrl(r + ext) == Some((ReadUrl(r).value.0, ReadUrl(r).value.1 + ext))
  {
    TakeExtends(r, 2, ext);
    var (len, r1) := ReadLe(r, 2).value;
    if len != 0 {
      TakeExtends(r1, len, ext);
    }
  }

  lemma ReadDeriverExtends(r: Bytes, ext: Bytes)
    requires ReadDeriver(r).Some?
    ensures ReadDeriver(r + ext) == Some((ReadDeriver(r).value.0, ReadDeriver(r).value.1 + ext))
  {
    TakeExtends(r, 1, ext);
    var (tag, r1) := Take(r, 1).value;
    if tag[0] != 0 {
      TakeExtends(r1, HASH_LEN, ext);
    }
  }

  /** More bytes after a complete record do not change how it is read. */
  lemma DecodeRecordExtends(r: Bytes, ext: Bytes)
    requires DecodeRecord(r).Some?
    ensures DecodeRecord(r + ext) == Some((DecodeRecord(r).value.0, DecodeRecord(r).value.1 + ext))
  {
    var (_, r1) := ReadHash(r).value;
    var (_, r2) := ReadUrl(r1).value;
    var (_, r3) := ReadU64(r2).value;
    var (_, r4) := ReadU64(r3).value;
    var (_, r5) := ReadDeriver(r4).value;
    var (n, r6) := ReadLe(r5, 2).value;
    TakeExtends(r, HASH_LEN, ext);
    ReadUrlExtends(r1, ext);
    TakeExtends(r2, 8, ext);
    TakeExtends(r3, 8, ext);
    ReadDeriverExtends(r4, ext);
    TakeExtends(r5, 2, ext);
    ReadHashesExtends(r6, n, ext);
  }

  /** What decodes with nothing left over decodes to nothing when it is cut short. */
  lemma CutEncoding(enc: Bytes, k: nat)
    requires DecodeRecord(enc).Some? && DecodeRecord(enc).value.1 == [] && k < |enc|
    ensures DecodeRecord(enc[..k]).None?
  {
    assert enc[..k] + enc[k..] == enc;
    if DecodeRecord(enc[..k]).Some? {
      DecodeRecordExtends(enc[..k], enc[k..]);
    }
  }

  lemma TruncatedRecord(e: Entry, k: nat)
    requires ValidEntry(e) && k < |EncodeRecord(e)|
    ensures DecodeRecord(EncodeRecord(e)[..k]).None?
  {
    var enc := EncodeRecord(e);
    DecodeEncodedRecord(e, []);
    assert enc + [] == enc;
    CutEncoding(enc, k);
  }

  /** How many whole records the first `k` bytes are, if they are whole records. */
  function WholeRecords(infos: seq<Entry>, k: nat): Option<nat>
    decreases |infos|
  {
    if k == 0 then Some(0)
    else if infos == [] || k < |EncodeRecord(infos[0])| then None
    else
      var j :- WholeRecords(infos[1..], k - |EncodeRecord(infos[0])|);
      Some(j + 1)
  }

  lemma {:induction false} WholeRecordsMeaning(infos: seq<Entry>, k: nat, j: nat)
    ensures WholeRecords(infos, k) == Some(j) <==> j <= |infos| && k == |EncodeRecords(infos[..j])|
    decreases |infos|
  {
    if infos == [] || j == 0 {
    } else {
      if j <= |infos| {
        assert infos[..j][0] == infos[0] && infos[..j][1..] == infos[1..][..j - 1];
      }
      if k >= |EncodeRecord(infos[0])| {
        WholeRecordsMeaning(infos[1..], k - |EncodeRecord(infos[0])|, j - 1);
      }
    }
  }

  lemma TruncatedFirst(infos: seq<Entry>, k: nat)
    requires infos != [] && k <= |EncodeRecords(infos)|
    ensures var n := |EncodeRecord(infos[0])|;
            EncodeRecords(infos)[..k] ==
            if k < n then EncodeRecord(infos[0])[..k] else EncodeRecord(infos[0]) + EncodeRecords(infos[1..])[..k - n]
  {
  }

  lemma CollectFirst(infos: seq<Entry>, acc: Map, j: nat)
    requires 0 < j <= |infos|
    ensures Collect(infos[..j], acc) == Collect(infos[1..][..j - 1], acc[infos[0].0 := Stored(infos[0].1)])
  {
    assert infos[..j][0] == infos[0] && infos[..j][1..] == infos[1..][..j - 1];
  }

  function CollectWhole(infos: seq<Entry>, acc: Map, whole: Option<nat>): Option<Map> {
    if whole.Some? && whole.value <= |infos| then Some(Collect(infos[..whole.value], acc)) else None
  }

  lemma DecodeFirst(e: Entry, tail: Bytes, acc: Map)
    requires ValidEntry(e)
    ensures DecodeRecords(EncodeRecord(e) + tail, acc) == DecodeRecords(tail, acc[e.0 := Stored(e.1)])
  {
    DecodeEncodedRecord(e, tail);
  }

  lemma DecodeHalfRecord(e: Entry, acc: Map, k: nat)
    requires ValidEntry(e) && 0 < k < |EncodeRecord(e)|
    ensures DecodeRecords(EncodeRecord(e)[..k], acc) == None
  {
    TruncatedRecord(e, k);
  }

  /** Cut at `k`, the records decode to the whole ones before the cut. */
  predicate CutDecodes(infos: seq<Entry>, acc: Map, k: nat)
    requires k <= |EncodeRecords(infos)|
  {
    && (WholeRecords(infos, k).Some? ==> WholeRecords(infos, k).value <= |infos|)
    && DecodeRecords(EncodeRecords(infos)[..k], acc) == CollectWhole(infos, acc, WholeRecords(infos, k))
  }

  lemma CutInFirst(infos: seq<Entry>, acc: Map, k: nat)
    requires infos != [] && ValidEntry(infos[0]) && 0 < k < |EncodeRecord(infos[0])|
    ensures CutDecodes(infos, acc, k)
  {
    TruncatedFirst(infos, k);
    DecodeHalfRecord(infos[0], acc, k);
  }

  lemma CutBehindFirst(infos: seq<Entry>, acc: Map, k: nat)
    requires infos != [] && ValidEntry(infos[0]) && |EncodeRecord(infos[0])| <= k <= |EncodeRecords(infos)|
    requires CutDecodes(infos[1..], acc[infos[0].0 := Stored(infos[0].1)], k - |EncodeRecord(infos[0])|)
    ensures CutDecodes(infos, acc, k)
  {
    TruncatedFirst(infos, k);
    DecodeFirst(infos[0], EncodeRecords(infos[1..])[..k - |EncodeRecord(infos[0])|], acc);
    if WholeRecords(infos, k).Some? {
      CollectFirst(infos, acc, WholeRecords(infos, k).value);
    }
  }

  lemma {:induction false} DecodeTruncated(infos: seq<Entry>, acc: Map, k: nat)
    requires forall e :: e in infos ==> ValidEntry(e)
    requires k <= |EncodeRecords(infos)|
    ensures CutDecodes(infos, acc, k)
    decreases |infos|
  {
    if k == 0 {
    } else {
      assert infos[0] in infos;
      if k < |EncodeRecord(infos[0])| {
        CutInFirst(infos, acc, k);
      } else {
        DecodeTruncated(infos[1..], acc[infos[0].0 := Stored(infos[0].1)], k - |EncodeRecord(infos[0])|);
        CutBehindFirst(infos, acc, k);
      }
    }
  }

  /** The cut falls right behind the first `j` records. */
  predicate Boundary(infos: seq<Entry>, k: nat, j: nat) {
    j <= |infos| && k == |Encode(infos[..j])|
  }

  /** A saved file cut short loads as its leading whole records when the cut is a record
      boundary behind the magic, and as nothing anywhere else. */
  lemma CutFile(infos: seq<Entry>, k: nat)
    requires forall e :: e in infos ==> ValidEntry(e)
    requires k <= |Encode(infos)|
    ensures forall j: nat :: Boundary(infos, k, j) ==>
              Decode(Encode(infos)[..k]) == Some(Collect(infos[..j], map[]))
    ensures (forall j: nat :: !Boundary(infos, k, j)) ==> Decode(Encode(infos)[..k]).None?
  {
    if k >= 8 {
      assert Encode(infos)[..k] == MAGIC + EncodeRecords(infos)[..k - 8];
      TakeAppend(MAGIC, EncodeRecords(infos)[..k - 8]);
      DecodeTruncated(infos, map[], k - 8);
      forall j: nat ensures Boundary(infos, k, j) <==> WholeRecords(infos, k - 8) == Some(j) {
        WholeRecordsMeaning(infos, k - 8, j);
      }
      var whole := WholeRecords(infos, k - 8);
      assert whole.Some? ==> Boundary(infos, k, whole.value);
    }
  }

  // ----- The format, byte by byte -----

  lemma {:induction false} LittleEndian(n: nat, k: nat, i: nat)
    requires i < k
    ensures LeBytes(n, k)[i] == n / Pow256(i) % 0x100
    decreases i
  {
    if i == 0 {
    } else {
      LittleEndian(n / 0x100, k - 1, i - 1);
      DivideTwice(n, Pow256(i - 1));
    }
  }

  lemma DivideTwice(n: nat, p: nat)
    requires p > 0
    ensures 256 * p > 0 && n / 256 / p == n / (256 * p)
  {
    var q, r := n / 256 / p, n / 256 % p;
    assert n / 256 == q * p + r && n == 256 * (q * p + r) + n % 256;
    assert 256 * (q * p + r) == q * (256 * p) + 256 * r;
    assert 256 * r + n % 256 < 256 * p;
    Quotient(n, 256 * p, q, 256 * r + n % 256);
  }

  lemma TimesIsMonotone(a: int, b: int, d: nat)
    requires a <= b
    ensures a * d <= b * d
  {
  }

  lemma Quotient(n: nat, d: nat, q: nat, r: nat)
    requires n == q * d + r && r < d
    ensures n / d == q
  {
    var q' := n / d;
    assert n == q' * d + n % d;
    if q' < q {
      TimesIsMonotone(q' + 1, q, d);
    } else if q < q' {
      TimesIsMonotone(q + 1, q', d);
    }
  }

  lemma TwoBytes(n: nat)
    requires n < 0x1_0000
    ensures LeBytes(n, 2) == [n % 0x100, n / 0x100]
  {
    assert LeBytes(n, 2) == [n % 0x100] + LeBytes(n / 0x100, 1);
    assert LeBytes(n / 0x100, 1) == [n / 0x100] + LeBytes(0, 0);
  }

  /** A file is the magic, seven letters and a version byte, and one record an entry. */
  lemma FilesAreSpelled(infos: seq<Entry>, e: Entry)
    ensures Spells(Encode(infos)[..8], "NCCCLOS\U{0001}")
    ensures Encode([]) == MAGIC && Encode(infos + [e]) == Encode(infos) + EncodeRecord(e)
  {
    EncodeRecordsSnoc(infos, e);
    Append2(MAGIC, EncodeRecords(infos), EncodeRecord(e));
  }

  /** A record that fits is, in this order: the hash; the length of the URL in two bytes, and the
      URL; the file size and the archive size in eight bytes each; 1 and the deriver, or 0; and
      the number of references in two bytes, and the references. */
  lemma RecordsAreSpelled(e: Entry, url: Bytes)
    requires Fits(e.1) && url == (if e.1.url.Some? then e.1.url.value else [])
    ensures EncodeRecord(e) ==
            e.0.bytes + ([|url| % 0x100, |url| / 0x100] + url + (LeBytes(e.1.fileSize, 8) + (LeBytes(e.1.narSize, 8) +
              ((if e.1.deriver.Some? then [1] + e.1.deriver.value.bytes else [0]) +
                ([|e.1.references| % 0x100, |e.1.references| / 0x100] + EncodeHashes(e.1.references))))))
  {
    TwoBytes(|url|);
    TwoBytes(|e.1.references|);
  }

  // ----- What a file can yield -----

  lemma {:induction false} ReadHashesValid(r: Bytes, n: nat)
    ensures ReadHashes(r, n).Some? ==> forall i :: 0 <= i < |ReadHashes(r, n).value.0| ==> ReadHashes(r, n).value.0[i].Valid()
    decreases n
  {
    if n == 0 || ReadHash(r).None? {
    } else {
      ReadHashesValid(ReadHash(r).value.1, n - 1);
    }
  }

  lemma DecodedRecordIsValid(r: Bytes)
    ensures DecodeRecord(r).Some? ==> ValidEntry(DecodeRecord(r).value.0)
  {
    if DecodeRecord(r).Some? {
      var (_, r1) := ReadHash(r).value;
      var (_, r2) := ReadUrl(r1).value;
      var (_, r3) := ReadU64(r2).value;
      var (_, r4) := ReadU64(r3).value;
      var (_, r5) := ReadDeriver(r4).value;
      var (n, r6) := ReadLe(r5, 2).value;
      ReadHashesValid(r6, n);
    }
  }

  ghost predicate ValidMap(m: Map) {
    forall h :: h in m ==> ValidEntry((h, m[h]))
  }

  lemma {:induction false} DecodedRecordsAreValid(r: Bytes, acc: Map)
    requires ValidMap(acc)
    ensures DecodeRecords(r, acc).Some? ==> ValidMap(DecodeRecords(r, acc).value)
    decreases |r|
  {
    if r == [] || DecodeRecord(r).None? {
    } else {
      var (e, rest) := DecodeRecord(r).value;
      DecodeShrinks(r);
      DecodedRecordIsValid(r);
      DecodedRecordsAreValid(rest, acc[e.0 := e.1]);
    }
  }

  /** Whatever bytes the cache file holds, what it yields is what the field types allow. */
  lemma DecodedIsValid(buf: Bytes)
    ensures Decode(buf).Some? ==> ValidMap(Decode(buf).value)
  {
    if Take(buf, 8).Some? {
      DecodedRecordsAreValid(Take(buf, 8).value.1, map[]);
    }
  }
}
