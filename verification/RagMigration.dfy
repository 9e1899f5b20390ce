/** The all-or-nothing join of a version 1 index with the corpus, and the migration built on it. */
module RagMigration {
  import opened Bytes
  import opened RagIndex
  import opened RagIndexFile
  import opened RagIndexWriter
  import opened Wrappers
  import Utf8

  datatype CorpusEntry = CorpusEntry(id: u64, tier: byte, text: seq<byte>, source: seq<byte>)

  datatype JoinError =
    | DuplicateCorpusId(id: u64, firstTier: byte, secondTier: byte)
    | DuplicateV1Id(id: u64)
    | NoCorpusMatch(id: u64)
    | TextDrift(id: u64)
    | SourceDrift(id: u64)
    | OrphanCorpusId(id: u64)

  // ---------- what the join is for ----------

  predicate DistinctV1(v1: seq<Entry>) {
    forall i, j | 0 <= i < j < |v1| :: v1[i].id != v1[j].id
  }

  predicate DistinctCorpus(corpus: seq<CorpusEntry>) {
    forall i, j | 0 <= i < j < |corpus| :: corpus[i].id != corpus[j].id
  }

  predicate Matches(e: Entry, c: CorpusEntry) {
    e.id == c.id && e.text == c.text && e.source == c.source
  }

  predicate HasMatch(e: Entry, corpus: seq<CorpusEntry>) {
    exists j | 0 <= j < |corpus| :: Matches(e, corpus[j])
  }

  predicate IsUsed(c: CorpusEntry, v1: seq<Entry>) {
    exists i | 0 <= i < |v1| :: v1[i].id == c.id
  }

  /** Distinct ids on both sides, the same ids on both sides, and no drift in text or source. */
  predicate Joinable(v1: seq<Entry>, corpus: seq<CorpusEntry>) {
    && DistinctV1(v1)
    && DistinctCorpus(corpus)
    && (forall i | 0 <= i < |v1| :: HasMatch(v1[i], corpus))
    && (forall j | 0 <= j < |corpus| :: IsUsed(corpus[j], v1))
  }

  function Untiered(es: seq<Entry>): seq<Entry> {
    seq(|es|, i requires 0 <= i < |es| => es[i].(tier := None))
  }

  /** `out` is `v1` in order with nothing changed but the tier, which is the one of the matching corpus chunk. */
  predicate Stamped(v1: seq<Entry>, corpus: seq<CorpusEntry>, out: seq<Entry>) {
    && Untiered(out) == v1
    && forall i | 0 <= i < |out| :: TierFrom(out[i], corpus)
  }

  predicate TierFrom(e: Entry, corpus: seq<CorpusEntry>) {
    exists j | 0 <= j < |corpus| :: Matches(e, corpus[j]) && e.tier == Some(corpus[j].tier)
  }

  /** What each refusal is evidence of. */
  predicate Justified(v1: seq<Entry>, corpus: seq<CorpusEntry>, e: JoinError) {
    match e
    case DuplicateCorpusId(id, t, u) =>
      exists i, j | 0 <= i < j < |corpus| ::
        corpus[i].id == corpus[j].id == id && corpus[i].tier == t && corpus[j].tier == u
    case DuplicateV1Id(id) => exists i, j | 0 <= i < j < |v1| :: v1[i].id == v1[j].id == id
    case NoCorpusMatch(id) =>
      (exists i | 0 <= i < |v1| :: v1[i].id == id) && forall j | 0 <= j < |corpus| :: corpus[j].id != id
    case TextDrift(id) =>
      exists i, j | 0 <= i < |v1| && 0 <= j < |corpus| :: v1[i].id == id == corpus[j].id && v1[i].text != corpus[j].text
    case SourceDrift(id) =>
      exists i, j | 0 <= i < |v1| && 0 <= j < |corpus| ::
        v1[i].id == id == corpus[j].id && v1[i].text == corpus[j].text && v1[i].source != corpus[j].source
    case OrphanCorpusId(id) =>
      (exists j | 0 <= j < |corpus| :: corpus[j].id == id) && forall i | 0 <= i < |v1| :: v1[i].id != id
  }

  lemma JustifiedIsFatal(v1: seq<Entry>, corpus: seq<CorpusEntry>, e: JoinError)
    requires Justified(v1, corpus, e)
    ensures !Joinable(v1, corpus)
  {
  }

  // ---------- the join ----------

  predicate Indexed(m: map<u64, CorpusEntry>, corpus: seq<CorpusEntry>, n: nat)
    requires n <= |corpus|
  {
    && m.Keys == (set j | 0 <= j < n :: corpus[j].id)
    && (forall j | 0 <= j < n :: m[corpus[j].id] == corpus[j])
  }

  method IndexCorpus(corpus: seq<CorpusEntry>) returns (r: Result<map<u64, CorpusEntry>, JoinError>)
    ensures match r
            case Ok(m) => DistinctCorpus(corpus) && Indexed(m, corpus, |corpus|)
            case Err(e) => e.DuplicateCorpusId? && Justified([], corpus, e)
  {
    var byId: map<u64, CorpusEntry> := map[];
    var n := 0;
    while n < |corpus|
      invariant n <= |corpus| && Indexed(byId, corpus, n)
      invariant forall i, j | 0 <= i < j < n :: corpus[i].id != corpus[j].id
    {
      var c := corpus[n];
      if c.id in byId {
        return Err(DuplicateCorpusId(c.id, byId[c.id].tier, c.tier));
      }
      byId := byId[c.id := c];
      n := n + 1;
    }
    r := Ok(byId);
  }

  function Stamp(e: Entry, tier: byte): Entry {
    e.(tier := Some(tier))
  }

  method MatchEntry(e: Entry, v1: seq<Entry>, corpus: seq<CorpusEntry>, byId: map<u64, CorpusEntry>)
    returns (r: Result<Entry, JoinError>)
    requires e in v1 && e.tier == None && Indexed(byId, corpus, |corpus|)
    ensures match r
            case Ok(out) => HasMatch(e, corpus) && TierFrom(out, corpus) && out.(tier := None) == e
            case Err(error) => Justified(v1, corpus, error)
  {
    if e.id !in byId {
      return Err(NoCorpusMatch(e.id));
    }
    var c := byId[e.id];
    if e.text != c.text {
      return Err(TextDrift(e.id));
    }
    if e.source != c.source {
      return Err(SourceDrift(e.id));
    }
    r := Ok(Stamp(e, c.tier));
    assert Matches(e, c) && Matches(r.value, c);
  }

  method FindOrphan(v1: seq<Entry>, corpus: seq<CorpusEntry>, consumed: set<u64>) returns (r: Option<u64>)
    requires consumed == set i | 0 <= i < |v1| :: v1[i].id
    ensures match r
            case None => forall j | 0 <= j < |corpus| :: IsUsed(corpus[j], v1)
            case Some(id) => Justified(v1, corpus, OrphanCorpusId(id))
  {
    var j := 0;
    while j < |corpus|
      invariant j <= |corpus|
      invariant forall k | 0 <= k < j :: IsUsed(corpus[k], v1)
    {
      if corpus[j].id !in consumed {
        return Some(corpus[j].id);
      }
      j := j + 1;
    }
    r := None;
  }

  method MatchAll(v1: seq<Entry>, corpus: seq<CorpusEntry>, byId: map<u64, CorpusEntry>)
    returns (r: Result<seq<Entry>, JoinError>, consumed: set<u64>)
    requires forall i | 0 <= i < |v1| :: v1[i].tier == None
    requires Indexed(byId, corpus, |corpus|)
    ensures r.Ok? ==> DistinctV1(v1) && forall i | 0 <= i < |v1| :: HasMatch(v1[i], corpus)
    ensures r.Ok? ==> Stamped(v1, corpus, r.value) && consumed == set i | 0 <= i < |v1| :: v1[i].id
    ensures r.Err? ==> Justified(v1, corpus, r.error)
  {
    hide HasMatch, TierFrom, Indexed;
    consumed := {};
    var entries: seq<Entry> := [];
    var n := 0;
    while n < |v1|
      invariant n == |entries| <= |v1|
      invariant consumed == set i | 0 <= i < n :: v1[i].id
      invariant forall i, j | 0 <= i < j < n :: v1[i].id != v1[j].id
      invariant forall i | 0 <= i < n :: HasMatch(v1[i], corpus)
      invariant forall i | 0 <= i < n :: entries[i].(tier := None) == v1[i]
      invariant forall i | 0 <= i < n :: TierFrom(entries[i], corpus)
    {
      var e := v1[n];
      if e.id in consumed {
        return Err(DuplicateV1Id(e.id)), consumed;
      }
      var out := MatchEntry(e, v1, corpus, byId);
      if out.Err? {
        return Err(out.error), consumed;
      }
      entries := entries + [out.value];
      consumed := consumed + {e.id};
      n := n + 1;
    }
    assert Untiered(entries) == v1;
    r := Ok(entries);
  }

  /** `build_v2_entries`. */
  method BuildV2Entries(v1: seq<Entry>, corpus: seq<CorpusEntry>) returns (r: Result<seq<Entry>, JoinError>)
    requires forall i | 0 <= i < |v1| :: v1[i].tier == None
    ensures r.Ok? <==> Joinable(v1, corpus)
    ensures r.Ok? ==> Stamped(v1, corpus, r.value)
    ensures r.Err? ==> Justified(v1, corpus, r.error)
    ensures !DistinctCorpus(corpus) ==> r.Err? && r.error.DuplicateCorpusId?
  {
    var indexed := IndexCorpus(corpus);
    if indexed.Err? {
      JustifiedIsFatal(v1, corpus, indexed.error);
      return Err(indexed.error);
    }
    var consumed;
    r, consumed := MatchAll(v1, corpus, indexed.value);
    if r.Err? {
      JustifiedIsFatal(v1, corpus, r.error);
      return;
    }
    var orphan := FindOrphan(v1, corpus, consumed);
    if orphan.Some? {
      r := Err(OrphanCorpusId(orphan.value));
      JustifiedIsFatal(v1, corpus, r.error);
    }
  }

  // ---------- the migration ----------

  datatype MigrationError = ReadError(read: IndexError) | Refused(join: JoinError) | WriteError(write: IndexError)

  /** A joined index is always writable: the writer cannot refuse what the reader produced. */
  lemma StampedFits(v1: seq<Entry>, corpus: seq<CorpusEntry>, out: seq<Entry>)
    requires FitsIndex(V1, v1) && Stamped(v1, corpus, out)
    ensures FitsIndex(V2, out)
  {
    hide Utf8.Valid;
    forall i | 0 <= i < |out| ensures FitsEntry(V2, out[i]) {
      assert Untiered(out)[i] == out[i].(tier := None);
      assert FitsEntry(V1, v1[i]);
      assert TierFrom(out[i], corpus);
    }
  }

  /** One tier byte per entry is all the migration adds. */
  lemma {:induction false} StampedLength(v1: seq<Entry>, corpus: seq<CorpusEntry>, out: seq<Entry>)
    requires Stamped(v1, corpus, out) && forall i | 0 <= i < |v1| :: v1[i].tier == None
    ensures |EncodeEntries(out)| == |EncodeEntries(v1)| + |v1|
  {
    hide Le, EncodeString, EncodeVector;
    if v1 != [] {
      var rest := out[1..];
      assert Untiered(rest) == v1[1..];
      assert TierFrom(out[0], corpus);
      assert Untiered(out)[0] == out[0].(tier := None);
      StampedLength(v1[1..], corpus, rest);
    }
  }

  /** `migrate_v1_to_v2`, the corpus already derived. */
  method Migrate(v1Bytes: seq<byte>, corpus: seq<CorpusEntry>, out: OutputFile, creates: bool)
    returns (r: Result<(), MigrationError>)
    requires |v1Bytes| <= USIZE_MAX
    modifies out`content
    ensures r.Ok? ==>
              && ParseIndex(V1, v1Bytes).Some? && Joinable(ParseIndex(V1, v1Bytes).value, corpus)
              && out.content.Some? && ParseIndex(V2, out.content.value).Some?
              && Stamped(ParseIndex(V1, v1Bytes).value, corpus, ParseIndex(V2, out.content.value).value)
    ensures r.Err? && !r.error.WriteError? ==>
              && out.content == old(out.content)
              && !(ParseIndex(V1, v1Bytes).Some? && Joinable(ParseIndex(V1, v1Bytes).value, corpus))
    ensures r.Err? && r.error.WriteError? ==>
              && ParseIndex(V1, v1Bytes).Some? && Joinable(ParseIndex(V1, v1Bytes).value, corpus)
              && if !creates then out.content == old(out.content)
                 else
                   && out.content.Some? && ParseIndex(V2, out.content.value) == None
                   && |v1Bytes| + |ParseIndex(V1, v1Bytes).value| > out.capacity
  {
    hide ParseIndex, EncodeIndex, EncodeEntries, Header, FitsEntry, Utf8.Valid;
    var v1 := ReadIndex(V1, v1Bytes);
    if v1.Err? {
      return Err(ReadError(v1.error));
    }
    ParsedIndexIsEncoded(V1, v1Bytes, v1.value);
    ParsedAreUntiered(v1.value);
    var v2 := BuildV2Entries(v1.value, corpus);
    if v2.Err? {
      return Err(Refused(v2.error));
    }
    StampedFits(v1.value, corpus, v2.value);
    Writable(V2, v2.value);
    MigratedLength(v1.value, corpus, v2.value);
    var written := WriteIndex(out, V2, v2.value, creates);
    if written.Err? {
      return Err(WriteError(written.error));
    }
    EncodedIndexParses(V2, out.content.value, v2.value);
    r := Ok(());
  }

  lemma ParsedAreUntiered(es: seq<Entry>)
    requires FitsIndex(V1, es)
    ensures forall i | 0 <= i < |es| :: es[i].tier == None
  {
  }

  lemma Writable(v: Layout, es: seq<Entry>)
    requires FitsIndex(v, es)
    ensures |es| <= U32_MAX
    ensures forall i | 0 <= i < |es| ::
              es[i].tier.Some? == v.tiered && Utf8.Valid(es[i].text) && Utf8.Valid(es[i].source)
  {
  }

  lemma MigratedLength(v1: seq<Entry>, corpus: seq<CorpusEntry>, out: seq<Entry>)
    requires Stamped(v1, corpus, out) && forall i | 0 <= i < |v1| :: v1[i].tier == None
    ensures |EncodeIndex(V2, out)| == |EncodeIndex(V1, v1)| + |v1|
  {
    hide Le;
    StampedLength(v1, corpus, out);
    assert |out| == |v1|;
  }

  /** A migrated file is refused if it is fed to the migration again. */
  lemma MigratedIsNotV1(bytes: seq<byte>)
    requires ParseIndex(V2, bytes).Some?
    ensures ParseIndex(V1, bytes).None?
  {
  }
}
