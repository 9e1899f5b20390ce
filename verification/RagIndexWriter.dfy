/** The field-by-field index writer, over a file whose device may fill up at any byte. */
module RagIndexWriter {
  import opened Bytes
  import opened Wrappers
  import opened Codecs
  import opened RagIndex
  import Utf8

  /** A file: absent, or its bytes; at most `capacity` bytes fit. */
  class OutputFile {
    var content: Option<seq<byte>>
    const capacity: nat

    constructor (content: Option<seq<byte>>, capacity: nat)
      ensures this.content == content && this.capacity == capacity
    {
      this.content := content;
      this.capacity := capacity;
    }

    ghost function Data(): seq<byte>
      reads this
    {
      if content.Some? then content.value else []
    }

    /** Writes everything, or what still fits and reports a failure. */
    method WriteAll(bytes: seq<byte>) returns (ok: bool)
      requires content.Some? && |content.value| <= capacity
      modifies this`content
      ensures content.Some? && |content.value| <= capacity
      ensures ok <==> |old(Data())| + |bytes| <= capacity
      ensures ok ==> Data() == old(Data()) + bytes
      ensures !ok ==> old(Data()) <= Data() < old(Data()) + bytes
    {
      var room := capacity - |content.value|;
      ok := |bytes| <= room;
      content := Some(content.value + if ok then bytes else bytes[..room]);
    }
  }

  lemma StrictlyWithin(data: seq<byte>, a: seq<byte>, full: seq<byte>)
    requires data < a <= full
    ensures data < full
  {
  }

  lemma PrefixUnder(base: seq<byte>, a: seq<byte>, b: seq<byte>)
    requires a <= b
    ensures base + a <= base + b
    ensures a < b ==> base + a < base + b
  {
  }

  // ---------- the entry as a growing sequence of pieces ----------

  function Zeros(n: nat): (z: seq<u32>)
    ensures |z| == n
  {
    seq(n, _ => 0)
  }

  function Filler(v: Layout): (e: Entry)
    ensures FitsEntry(v, e)
  {
    Entry(0, Zeros(v.dim), if v.tiered then Some(0) else None, [], [])
  }

  /** A writable entry that begins with the bytes the writer emits for `e` before it refuses `e`. */
  function Repaired(v: Layout, e: Entry): (r: Entry)
    ensures FitsEntry(v, r)
    ensures FitsEntry(v, e) ==> r == e
  {
    if |e.vector| != v.dim || e.tier.Some? != v.tiered then Filler(v)
    else if !FitsString(e.text) then Entry(e.id, e.vector, e.tier, [], [])
    else if !FitsString(e.source) then Entry(e.id, e.vector, e.tier, e.text, [])
    else e
  }

  ghost function UpToVector(e: Entry): seq<byte> {
    Le(e.id, 8) + EncodeVector(e.vector)
  }

  ghost function UpToTier(e: Entry): seq<byte> {
    UpToVector(e) + EncodeTier(e.tier)
  }

  ghost function UpToText(e: Entry): seq<byte> {
    UpToTier(e) + EncodeString(e.text)
  }

  lemma Pieces(e: Entry)
    ensures EncodeEntry(e) == UpToText(e) + EncodeString(e.source)
    ensures UpToTier(e) < UpToText(e) < EncodeEntry(e)
    ensures Le(e.id, 8) <= UpToVector(e) <= UpToTier(e)
  {
  }

  lemma EncodeVectorGrows(vector: seq<u32>, i: nat)
    requires i < |vector|
    ensures EncodeVector(vector[..i + 1]) == EncodeVector(vector[..i]) + EncodeFloat(vector[i])
    ensures EncodeVector(vector[..i + 1]) <= EncodeVector(vector)
  {
    assert vector[..i + 1] == vector[..i] + [vector[i]];
    EncodeManySnoc(EncodeFloat, vector[..i], vector[i]);
    assert vector == vector[..i + 1] + vector[i + 1..];
    EncodeManyConcat(EncodeFloat, vector[..i + 1], vector[i + 1..]);
  }

  lemma EncodeEntriesGrow(es: seq<Entry>, k: nat)
    requires k < |es|
    ensures EncodeEntries(es[..k + 1]) == EncodeEntries(es[..k]) + EncodeEntry(es[k])
    ensures |EncodeEntries(es)| >= |EncodeEntries(es[..k])| + |EncodeEntry(es[k])|
  {
    assert es[..k + 1] == es[..k] + [es[k]];
    EncodeManySnoc(EncodeEntry, es[..k], es[k]);
    assert es == es[..k + 1] + es[k + 1..];
    EncodeManyConcat(EncodeEntry, es[..k + 1], es[k + 1..]);
  }

  // ---------- the writer ----------

  ghost predicate Open(file: OutputFile)
    reads file
  {
    file.content.Some? && |file.content.value| <= file.capacity
  }

  method WriteString(file: OutputFile, s: seq<byte>) returns (r: Result<(), IndexError>)
    requires Open(file)
    modifies file`content
    ensures Open(file)
    ensures r.Ok? <==> |s| <= U32_MAX && |old(file.Data())| + |EncodeString(s)| <= file.capacity
    ensures r.Ok? ==> file.Data() == old(file.Data()) + EncodeString(s)
    ensures r.Err? && |s| > U32_MAX ==> file.Data() == old(file.Data())
    ensures r.Err? && |s| <= U32_MAX ==> old(file.Data()) <= file.Data() < old(file.Data()) + EncodeString(s)
  {
    if |s| > U32_MAX {
      return Err(FieldTooLong(|s|));
    }
    Assoc(file.Data(), Le(|s|, 4), s);
    var ok := file.WriteAll(Le(|s|, 4));
    if !ok {
      return Err(WriteFailed);
    }
    ok := file.WriteAll(s);
    if !ok {
      return Err(WriteFailed);
    }
    return Ok(());
  }

  /** The first `i` floats are in the file after `base`. */
  ghost predicate FloatsWritten(file: OutputFile, base: seq<byte>, vector: seq<u32>, i: nat)
    requires i <= |vector|
    reads file
  {
    Open(file) && file.Data() == base + EncodeVector(vector[..i])
  }

  method WriteFloat(file: OutputFile, ghost base: seq<byte>, vector: seq<u32>, i: nat) returns (ok: bool)
    requires i < |vector| && FloatsWritten(file, base, vector, i)
    modifies file`content
    ensures Open(file)
    ensures ok ==> FloatsWritten(file, base, vector, i + 1)
    ensures !ok ==> base <= file.Data() < base + EncodeVector(vector)
    ensures !ok ==> |base| + |EncodeVector(vector)| > file.capacity
  {
    EncodeVectorGrows(vector, i);
    hide EncodeVector, EncodeFloat;
    Assoc(base, EncodeVector(vector[..i]), EncodeFloat(vector[i]));
    PrefixUnder(base, EncodeVector(vector[..i + 1]), EncodeVector(vector));
    ok := file.WriteAll(EncodeFloat(vector[i]));
  }

  method WriteVector(file: OutputFile, vector: seq<u32>) returns (ok: bool)
    requires Open(file)
    modifies file`content
    ensures Open(file)
    ensures ok <==> |old(file.Data())| + |EncodeVector(vector)| <= file.capacity
    ensures ok ==> file.Data() == old(file.Data()) + EncodeVector(vector)
    ensures !ok ==> old(file.Data()) <= file.Data() < old(file.Data()) + EncodeVector(vector)
  {
    ghost var base := file.Data();
    assert FloatsWritten(file, base, vector, 0) by {
      assert base + EncodeVector(vector[..0]) == base;
    }
    hide EncodeVector;
    var i := 0;
    while i < |vector|
      invariant i <= |vector| && FloatsWritten(file, base, vector, i)
    {
      var written := WriteFloat(file, base, vector, i);
      if !written {
        return false;
      }
      i := i + 1;
    }
    assert vector[..i] == vector;
    return true;
  }

  method WriteFixedFields(file: OutputFile, e: Entry) returns (ok: bool)
    requires Open(file)
    modifies file`content
    ensures Open(file)
    ensures ok <==> |old(file.Data())| + |UpToTier(e)| <= file.capacity
    ensures ok ==> file.Data() == old(file.Data()) + UpToTier(e)
    ensures !ok ==> old(file.Data()) <= file.Data() < old(file.Data()) + UpToTier(e)
  {
    hide Le, EncodeVector;
    ghost var base := file.Data();
    Pieces(e);
    PrefixUnder(base, UpToVector(e), UpToTier(e));
    PrefixUnder(base, Le(e.id, 8), UpToVector(e));
    Assoc(base, Le(e.id, 8), EncodeVector(e.vector));
    Assoc(base, UpToVector(e), EncodeTier(e.tier));
    ok := file.WriteAll(Le(e.id, 8));
    if !ok { return; }
    ok := WriteVector(file, e.vector);
    if !ok { return; }
    if e.tier.Some? {
      ok := file.WriteAll([e.tier.value]);
    }
  }

  /** One turn of the writer's loop. */
  method WriteEntry(file: OutputFile, v: Layout, e: Entry) returns (r: Result<(), IndexError>)
    requires Open(file) && e.tier.Some? == v.tiered && Utf8.Valid(e.text) && Utf8.Valid(e.source)
    modifies file`content
    ensures Open(file)
    ensures r.Ok? <==> FitsEntry(v, e) && |old(file.Data())| + |EncodeEntry(e)| <= file.capacity
    ensures r.Ok? ==> file.Data() == old(file.Data()) + EncodeEntry(e)
    ensures r.Err? ==> old(file.Data()) <= file.Data() < old(file.Data()) + EncodeEntry(Repaired(v, e))
  {
    hide Le, EncodeVector, Utf8.Valid, EncodeEntry, EncodeString;
    ghost var base, good := file.Data(), Repaired(v, e);
    Pieces(good);
    Pieces(e);
    if |e.vector| != v.dim {
      PrefixUnder(base, [], EncodeEntry(good));
      assert base + [] == base;
      return Err(WrongDimension(e.id, |e.vector|));
    }
    PrefixUnder(base, UpToTier(e), EncodeEntry(good));
    PrefixUnder(base, UpToText(good), EncodeEntry(good));
    Assoc(base, UpToTier(e), EncodeString(e.text));
    Assoc(base, UpToText(e), EncodeString(e.source));
    var ok := WriteFixedFields(file, e);
    if !ok { return Err(WriteFailed); }
    r := WriteString(file, e.text);
    if r.Err? { return; }
    r := WriteString(file, e.source);
  }

  function Fillers(v: Layout, n: nat): (es: seq<Entry>)
    ensures |es| == n && AllOk(Fitting(v), es)
  {
    if n == 0 then [] else [Filler(v)] + Fillers(v, n - 1)
  }

  /** A file cut inside its `k`-th entry is a strict prefix of some readable index. */
  lemma CutInEntry(v: Layout, es: seq<Entry>, k: nat, data: seq<byte>)
    requires k < |es| <= U32_MAX && AllOk(Fitting(v), es[..k])
    requires data < (Header(v, |es|) + EncodeEntries(es[..k])) + EncodeEntry(Repaired(v, es[k]))
    ensures ParseIndex(v, data) == None
  {
    hide EncodeEntry, Header, ParseIndex, FitsEntry;
    var good := Repaired(v, es[k]);
    var done := es[..k] + [good];
    var rest := Fillers(v, |es| - k - 1);
    var all := done + rest;
    var h, a, b, c := Header(v, |es|), EncodeEntries(es[..k]), EncodeEntry(good), EncodeEntries(rest);
    EncodeManySnoc(EncodeEntry, es[..k], good);
    EncodeManyConcat(EncodeEntry, done, rest);
    Assoc(h, a, b);
    Assoc(h, a + b, c);
    assert FitsIndex(v, all);
    StrictlyWithin(data, (h + a) + b, EncodeIndex(v, all));
    StrictPrefixRejected(v, all, data);
  }

  lemma CutInHeader(v: Layout, n: nat, data: seq<byte>)
    requires n <= U32_MAX && data < Header(v, n)
    ensures ParseIndex(v, data) == None
  {
  }

  method WriteHeader(file: OutputFile, v: Layout, n: nat) returns (ok: bool)
    requires file.content == Some([]) && n <= U32_MAX
    modifies file`content
    ensures Open(file)
    ensures ok <==> |Header(v, n)| <= file.capacity
    ensures ok ==> file.Data() == Header(v, n)
    ensures !ok ==> file.Data() < Header(v, n)
  {
    hide Le;
    Assoc(INDEX_MAGIC, Le(v.version, 4), Le(n, 4));
    assert [] + INDEX_MAGIC == INDEX_MAGIC;
    ok := file.WriteAll(INDEX_MAGIC);
    if !ok { return; }
    ok := file.WriteAll(Le(v.version, 4));
    if !ok { return; }
    ok := file.WriteAll(Le(n, 4));
  }

  /** The first `k` entries are in the file after the header, and are all writable. */
  ghost predicate EntriesWritten(file: OutputFile, v: Layout, entries: seq<Entry>, k: nat)
    requires k <= |entries|
    reads file
  {
    && Open(file)
    && AllOk(Fitting(v), entries[..k])
    && file.Data() == Header(v, |entries|) + EncodeEntries(entries[..k])
  }

  lemma WrittenSoFarFits(v: Layout, es: seq<Entry>, k: nat)
    requires k < |es|
    ensures AllOk(Fitting(v), es[..k]) && FitsEntry(v, es[k]) ==> AllOk(Fitting(v), es[..k + 1])
    ensures !FitsEntry(v, es[k]) ==> !AllOk(Fitting(v), es)
    ensures |EncodeIndex(v, es)| >= |Header(v, |es|)| + |EncodeEntries(es[..k])| + |EncodeEntry(es[k])|
  {
    hide EncodeEntry, Header, FitsEntry;
    assert Fitting(v)(es[k]) == FitsEntry(v, es[k]);
    EncodeEntriesGrow(es, k);
  }

  method WriteNext(file: OutputFile, v: Layout, entries: seq<Entry>, k: nat) returns (r: Result<(), IndexError>)
    requires k < |entries| <= U32_MAX && EntriesWritten(file, v, entries, k)
    requires entries[k].tier.Some? == v.tiered && Utf8.Valid(entries[k].text) && Utf8.Valid(entries[k].source)
    modifies file`content
    ensures Open(file)
    ensures r.Ok? ==> EntriesWritten(file, v, entries, k + 1)
    ensures r.Err? ==> ParseIndex(v, file.Data()) == None
    ensures r.Err? ==> !AllOk(Fitting(v), entries) || |EncodeIndex(v, entries)| > file.capacity
  {
    hide EncodeEntry, Header, ParseIndex, FitsEntry, Repaired, Utf8.Valid;
    ghost var h := Header(v, |entries|);
    EncodeEntriesGrow(entries, k);
    WrittenSoFarFits(v, entries, k);
    Assoc(h, EncodeEntries(entries[..k]), EncodeEntry(entries[k]));
    r := WriteEntry(file, v, entries[k]);
    if r.Err? {
      CutInEntry(v, entries, k, file.Data());
    }
  }

  method WriteEntries(file: OutputFile, v: Layout, entries: seq<Entry>) returns (r: Result<(), IndexError>)
    requires forall i | 0 <= i < |entries| ::
               entries[i].tier.Some? == v.tiered && Utf8.Valid(entries[i].text) && Utf8.Valid(entries[i].source)
    requires Open(file) && |entries| <= U32_MAX && file.Data() == Header(v, |entries|)
    modifies file`content
    ensures Open(file)
    ensures r.Ok? <==> AllOk(Fitting(v), entries) && |EncodeIndex(v, entries)| <= file.capacity
    ensures r.Ok? ==> file.Data() == EncodeIndex(v, entries)
    ensures r.Err? ==> ParseIndex(v, file.Data()) == None
  {
    assert EntriesWritten(file, v, entries, 0) by {
      assert file.Data() + EncodeEntries(entries[..0]) == file.Data();
    }
    hide EncodeEntries, Header, ParseIndex, FitsEntry, Utf8.Valid;
    var k := 0;
    while k < |entries|
      invariant k <= |entries| && EntriesWritten(file, v, entries, k)
    {
      r := WriteNext(file, v, entries, k);
      if r.Err? {
        return;
      }
      k := k + 1;
    }
    assert entries[..k] == entries;
    return Ok(());
  }

  /**
  `write_v2_index`: afterwards the file is complete, untouched, or rejected by the reader. Creating
  its directory or the file itself may fail, and then whatever was there stays.
  */
  method WriteIndex(file: OutputFile, v: Layout, entries: seq<Entry>, creates: bool) returns (r: Result<(), IndexError>)
    requires forall i | 0 <= i < |entries| ::
               entries[i].tier.Some? == v.tiered && Utf8.Valid(entries[i].text) && Utf8.Valid(entries[i].source)
    modifies file`content
    ensures r.Ok? <==> creates && FitsIndex(v, entries) && |EncodeIndex(v, entries)| <= file.capacity
    ensures r.Ok? ==> file.content == Some(EncodeIndex(v, entries))
    ensures !creates || |entries| > U32_MAX ==> file.content == old(file.content)
    ensures r.Err? && creates && |entries| <= U32_MAX ==>
              file.content.Some? && ParseIndex(v, file.content.value) == None
  {
    hide EncodeEntry, Header, ParseIndex, FitsEntry, Utf8.Valid;
    if |entries| > U32_MAX {
      return Err(TooManyEntries(|entries|));
    }
    if !creates {
      return Err(CreateFailed);
    }
    file.content := Some([]);
    var ok := WriteHeader(file, v, |entries|);
    if !ok {
      CutInHeader(v, |entries|, file.Data());
      return Err(WriteFailed);
    }
    r := WriteEntries(file, v, entries);
  }
}
