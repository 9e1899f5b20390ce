/**
The RAG index file: `magic | version u32 | count u32 | entries`, little-endian, each entry
`id u64 | vector f32 x 1024 | tier u8 (version 2 only) | text | source`, strings with a u32
byte length. The grammar is given by the encoders; the cursor-based reader and the writer are
proved against it.
*/
module RagIndex {
  import opened Bytes
  import opened Codecs
  import opened Wrappers
  import Utf8

  const INDEX_MAGIC: seq<byte> := [0x45, 0x52, 0x41, 0x47]  // "ERAG"

  /** A version of the layout: the dimension of the vectors, and whether an entry has a tier byte. */
  datatype Layout = Layout(version: u32, dim: nat, tiered: bool)

  const V1 := Layout(1, 1024, false)
  const V2 := Layout(2, 1024, true)

  /** An entry of either layout; an `f32` is kept as its bit pattern and only a tiered layout has a tier.
      The strings are kept as their bytes. */
  datatype Entry = Entry(id: u64, vector: seq<u32>, tier: Option<byte>, text: seq<byte>, source: seq<byte>)

  datatype IndexError =
    | ReadOverflow
    | Truncated(need: nat, at: nat, have: nat)
    | BadMagic(found: seq<byte>)
    | BadVersion(version: nat)
    | NotUtf8
    | TooManyEntries(count: nat)
    | WrongDimension(id: u64, dim: nat)
    | FieldTooLong(length: nat)
    | CreateFailed
    | WriteFailed

  // ---------- the layout ----------

  function EncodeFloat(bits: u32): seq<byte> {
    Le(bits, 4)
  }

  function EncodeVector(vector: seq<u32>): seq<byte> {
    EncodeMany(EncodeFloat, vector)
  }

  function EncodeString(s: seq<byte>): seq<byte> {
    Le(|s|, 4) + s
  }

  function EncodeTier(tier: Option<byte>): seq<byte> {
    if tier.Some? then [tier.value] else []
  }

  function EncodeEntry(e: Entry): seq<byte> {
    Le(e.id, 8) + (EncodeVector(e.vector) + (EncodeTier(e.tier) + (EncodeString(e.text) + EncodeString(e.source))))
  }

  function EncodeEntries(es: seq<Entry>): seq<byte> {
    EncodeMany(EncodeEntry, es)
  }

  function Header(v: Layout, count: nat): seq<byte> {
    INDEX_MAGIC + (Le(v.version, 4) + Le(count, 4))
  }

  function EncodeIndex(v: Layout, es: seq<Entry>): seq<byte> {
    Header(v, |es|) + EncodeEntries(es)
  }

  predicate FitsString(s: seq<byte>) {
    |s| <= U32_MAX && Utf8.Valid(s)
  }

  predicate FitsEntry(v: Layout, e: Entry) {
    && |e.vector| == v.dim
    && e.tier.Some? == v.tiered
    && FitsString(e.text)
    && FitsString(e.source)
  }

  function Fitting(v: Layout): Entry -> bool {
    e => FitsEntry(v, e)
  }

  predicate AnyFloat(bits: u32) {
    true
  }

  predicate FitsIndex(v: Layout, es: seq<Entry>) {
    |es| <= U32_MAX && forall i | 0 <= i < |es| :: FitsEntry(v, es[i])
  }

  lemma {:induction false} VectorAt(vector: seq<u32>, j: nat)
    requires j < |vector|
    ensures |EncodeVector(vector)| == 4 * |vector|
    ensures EncodeVector(vector)[4 * j..4 * j + 4] == Le(vector[j], 4)
  {
    var rest := EncodeVector(vector[1..]);
    assert EncodeVector(vector) == EncodeFloat(vector[0]) + rest;
    Widths();
    hide Le;
    if |vector| > 1 {
      VectorAt(vector[1..], if j == 0 then 0 else j - 1);
      assert j > 0 ==> EncodeVector(vector)[4 * j..4 * j + 4] == rest[4 * (j - 1)..4 * (j - 1) + 4];
    }
  }

  lemma StringsLayout(text: seq<byte>, source: seq<byte>)
    ensures var s := EncodeString(text) + EncodeString(source);
            && |s| == 4 + |text| + 4 + |source|
            && s[..4] == Le(|text|, 4) && s[4..4 + |text|] == text
            && s[4 + |text|..8 + |text|] == Le(|source|, 4) && s[8 + |text|..] == source
  {
    hide Le;
  }

  lemma SliceBehind(s: seq<byte>, at: nat, part: seq<byte>, i: nat, j: nat)
    requires i <= j <= |part| && at + |part| <= |s| && s[at..at + |part|] == part
    ensures s[at + i..at + j] == part[i..j]
  {
    var rest := s[at..];
    assert rest[..|part|] == part;
    assert rest[..|part|][i..j] == rest[i..j];
    assert rest[i..j] == s[at + i..at + j];
  }

  lemma EntryParts(e: Entry)
    ensures var s, vector := EncodeEntry(e), EncodeVector(e.vector);
            var t := 8 + |vector| + if e.tier.Some? then 1 else 0;
            && |s| >= t && s[..8] == Le(e.id, 8) && s[8..8 + |vector|] == vector
            && (e.tier.Some? ==> s[8 + |vector|] == e.tier.value)
            && var strings := EncodeString(e.text) + EncodeString(e.source);
               |s| == t + |strings| && s[t..t + |strings|] == strings
  {
    hide Le, EncodeVector, EncodeString;
    var before, strings := (Le(e.id, 8) + EncodeVector(e.vector)) + EncodeTier(e.tier), EncodeString(e.text) + EncodeString(e.source);
    assert EncodeEntry(e) == before + strings;
    assert (before + strings)[|before|..|before| + |strings|] == strings;
  }

  /**
  Where everything is in an entry: the id first, the vector, then the tier if there is one, and the
  two strings, each behind its length.
  */
  lemma EntryLayout(e: Entry)
    ensures var s, d := EncodeEntry(e), 4 * |e.vector|;
            var t := 8 + d + if e.tier.Some? then 1 else 0;
            && |s| == t + 4 + |e.text| + 4 + |e.source|
            && s[..8] == Le(e.id, 8)
            && (forall j | 0 <= j < |e.vector| :: s[8 + 4 * j..8 + 4 * j + 4] == Le(e.vector[j], 4))
            && (e.tier.Some? ==> s[8 + d] == e.tier.value)
            && s[t..t + 4] == Le(|e.text|, 4) && s[t + 4..t + 4 + |e.text|] == e.text
            && s[t + 4 + |e.text|..t + 8 + |e.text|] == Le(|e.source|, 4) && s[t + 8 + |e.text|..] == e.source
  {
    var s, vector, strings := EncodeEntry(e), EncodeVector(e.vector), EncodeString(e.text) + EncodeString(e.source);
    var t, m, n := 8 + 4 * |e.vector| + if e.tier.Some? then 1 else 0, |e.text|, |strings|;
    StringsLayout(e.text, e.source);
    EncodeVectorLength(e.vector);
    EntryParts(e);
    hide Le, EncodeVector, EncodeString, EncodeEntry;
    forall j | 0 <= j < |e.vector| ensures s[8 + 4 * j..8 + 4 * j + 4] == Le(e.vector[j], 4) {
      VectorAt(e.vector, j);
      SliceBehind(s, 8, vector, 4 * j, 4 * j + 4);
    }
    SliceBehind(s, t, strings, 0, 4);
    SliceBehind(s, t, strings, 4, 4 + m);
    SliceBehind(s, t, strings, 4 + m, 8 + m);
    SliceBehind(s, t, strings, 8 + m, n);
  }

  // ---------- parsing a suffix of the file: a value and what is left ----------

  function ParseU64(s: seq<byte>): Option<(u64, seq<byte>)> {
    if |s| < 8 then None
    else
      Widths();
      LeOfFromLe(s[..8]);
      Some((FromLe(s[..8]), s[8..]))
  }

  function ParseFloat(s: seq<byte>): Option<(u32, seq<byte>)> {
    if |s| < 4 then None
    else
      Widths();
      LeOfFromLe(s[..4]);
      Some((FromLe(s[..4]), s[4..]))
  }

  function ParseVector(dim: nat, s: seq<byte>): Option<(seq<u32>, seq<byte>)> {
    Many(ParseFloat, s, dim)
  }

  function ParseString(s: seq<byte>): Option<(seq<byte>, seq<byte>)> {
    if |s| < 4 then None
    else
      var n := FromLe(s[..4]);
      if |s| - 4 < n || !Utf8.Valid(s[4..4 + n]) then None
      else Some((s[4..4 + n], s[4 + n..]))
  }

  function ParseTier(v: Layout, s: seq<byte>): Option<(Option<byte>, seq<byte>)> {
    if !v.tiered then Some((None, s))
    else if s == [] then None
    else Some((Some(s[0]), s[1..]))
  }

  function ParseEntry(v: Layout, s: seq<byte>): Option<(Entry, seq<byte>)> {
    match ParseU64(s)
    case None => None
    case Some((id, s1)) =>
      match ParseVector(v.dim, s1)
      case None => None
      case Some((vector, s2)) =>
        match ParseTier(v, s2)
        case None => None
        case Some((tier, s3)) =>
          match ParseString(s3)
          case None => None
          case Some((text, s4)) =>
            match ParseString(s4)
            case None => None
            case Some((source, rest)) => Some((Entry(id, vector, tier, text, source), rest))
  }

  function EntryParser(v: Layout): Parser<Entry> {
    s => ParseEntry(v, s)
  }

  /** What the readers compute: bytes after the last entry are ignored. */
  function ParseIndex(v: Layout, s: seq<byte>): Option<seq<Entry>> {
    if |s| < 12 || s[..4] != INDEX_MAGIC || FromLe(s[4..8]) != v.version then None
    else
      match Many(EntryParser(v), s[12..], FromLe(s[8..12]))
      case None => None
      case Some((es, rest)) => Some(es)
  }

  // ---------- each parser inverts its encoder, and accepts nothing else ----------

  lemma Regroup(a: seq<byte>, b: seq<byte>, c: seq<byte>, d: seq<byte>, e: seq<byte>, rest: seq<byte>)
    ensures (a + (b + (c + (d + e)))) + rest == a + (b + (c + (d + (e + rest))))
  {
  }

  lemma U64Exact(s: seq<byte>, x: u64, rest: seq<byte>)
    ensures ParseU64(s) == Some((x, rest)) <==> s == Le(x, 8) + rest
  {
    Widths();
    if |s| >= 8 {
      LeOfFromLe(s[..8]);
      assert s == s[..8] + s[8..];
    }
    if s == Le(x, 8) + rest {
      assert s[..8] == Le(x, 8) && s[8..] == rest;
      FromLeOfLe(x, 8);
    }
  }

  lemma FloatExact()
    ensures Exact(ParseFloat, EncodeFloat, AnyFloat)
  {
    forall s, x: u32, rest ensures ExactAt(ParseFloat, EncodeFloat, AnyFloat, s, x, rest) {
      Widths();
      if |s| >= 4 {
        LeOfFromLe(s[..4]);
        assert s == s[..4] + s[4..];
      }
      if s == Le(x, 4) + rest {
        assert s[..4] == Le(x, 4) && s[4..] == rest;
        FromLeOfLe(x, 4);
      }
    }
  }

  lemma {:induction false} EncodeVectorLength(vector: seq<u32>)
    ensures |EncodeVector(vector)| == 4 * |vector|
  {
    if vector != [] {
      EncodeVectorLength(vector[1..]);
    }
  }

  lemma VectorExact(dim: nat, s: seq<byte>, vector: seq<u32>, rest: seq<byte>)
    ensures ParseVector(dim, s) == Some((vector, rest)) <==> |vector| == dim && s == EncodeVector(vector) + rest
  {
    FloatExact();
    ManyExact(ParseFloat, EncodeFloat, AnyFloat, s, dim, vector, rest);
  }

  lemma ParsedStringIsEncoded(s: seq<byte>, t: seq<byte>, rest: seq<byte>)
    requires ParseString(s) == Some((t, rest))
    ensures FitsString(t) && s == EncodeString(t) + rest
  {
    hide Utf8.Valid, Le, FromLe;
    Widths();
    LeOfFromLe(s[..4]);
    assert s == (s[..4] + t) + rest;
  }

  lemma EncodedStringParses(t: seq<byte>, rest: seq<byte>)
    requires FitsString(t)
    ensures ParseString(EncodeString(t) + rest) == Some((t, rest))
  {
    hide Utf8.Valid, Le, FromLe;
    Widths();
    FromLeOfLe(|t|, 4);
    var s := EncodeString(t) + rest;
    assert s[..4] == Le(|t|, 4);
    assert s[4..4 + |t|] == t && s[4 + |t|..] == rest;
  }

  lemma StringExact(s: seq<byte>, t: seq<byte>, rest: seq<byte>)
    ensures ParseString(s) == Some((t, rest)) <==> FitsString(t) && s == EncodeString(t) + rest
  {
    hide ParseString, FitsString, EncodeString;
    if ParseString(s) == Some((t, rest)) {
      ParsedStringIsEncoded(s, t, rest);
    }
    if FitsString(t) && s == EncodeString(t) + rest {
      EncodedStringParses(t, rest);
    }
  }

  lemma TierExact(v: Layout, s: seq<byte>, tier: Option<byte>, rest: seq<byte>)
    ensures ParseTier(v, s) == Some((tier, rest)) <==> tier.Some? == v.tiered && s == EncodeTier(tier) + rest
  {
    if v.tiered && s != [] {
      assert s == [s[0]] + s[1..];
    }
    if !v.tiered && tier.None? {
      assert EncodeTier(tier) + rest == rest;
    }
  }

  lemma ParsedEntryIsEncoded(v: Layout, s: seq<byte>, e: Entry, rest: seq<byte>)
    requires ParseEntry(v, s) == Some((e, rest))
    ensures FitsEntry(v, e) && s == EncodeEntry(e) + rest
  {
    var s1 := ParseU64(s).value.1;
    var s2 := ParseVector(v.dim, s1).value.1;
    var s3 := ParseTier(v, s2).value.1;
    var s4 := ParseString(s3).value.1;
    U64Exact(s, e.id, s1);
    VectorExact(v.dim, s1, e.vector, s2);
    TierExact(v, s2, e.tier, s3);
    StringExact(s3, e.text, s4);
    StringExact(s4, e.source, rest);
    Regroup(Le(e.id, 8), EncodeVector(e.vector), EncodeTier(e.tier), EncodeString(e.text), EncodeString(e.source), rest);
  }

  lemma EncodedEntryParses(v: Layout, e: Entry, rest: seq<byte>)
    requires FitsEntry(v, e)
    ensures ParseEntry(v, EncodeEntry(e) + rest) == Some((e, rest))
  {
    var s4 := EncodeString(e.source) + rest;
    var s3 := EncodeString(e.text) + s4;
    var s2 := EncodeTier(e.tier) + s3;
    var s1 := EncodeVector(e.vector) + s2;
    Regroup(Le(e.id, 8), EncodeVector(e.vector), EncodeTier(e.tier), EncodeString(e.text), EncodeString(e.source), rest);
    U64Exact(EncodeEntry(e) + rest, e.id, s1);
    VectorExact(v.dim, s1, e.vector, s2);
    TierExact(v, s2, e.tier, s3);
    StringExact(s3, e.text, s4);
    StringExact(s4, e.source, rest);
  }

  lemma EntryExact(v: Layout)
    ensures Exact(EntryParser(v), EncodeEntry, Fitting(v))
  {
    forall s, e, rest ensures ExactAt(EntryParser(v), EncodeEntry, Fitting(v), s, e, rest) {
      if ParseEntry(v, s) == Some((e, rest)) {
        ParsedEntryIsEncoded(v, s, e, rest);
      }
      if FitsEntry(v, e) && s == EncodeEntry(e) + rest {
        EncodedEntryParses(v, e, rest);
      }
    }
  }

  lemma HeaderExact(v: Layout, s: seq<byte>, count: nat)
    requires count <= U32_MAX
    ensures Header(v, count) <= s <==>
            |s| >= 12 && s[..4] == INDEX_MAGIC && FromLe(s[4..8]) == v.version && FromLe(s[8..12]) == count
  {
    Widths();
    FromLeOfLe(v.version, 4);
    FromLeOfLe(count, 4);
    if |s| >= 12 {
      LeOfFromLe(s[4..8]);
      LeOfFromLe(s[8..12]);
      assert s[..12] == s[..4] + (s[4..8] + s[8..12]);
      assert Header(v, count)[..4] == INDEX_MAGIC;
      assert Header(v, count)[4..8] == Le(v.version, 4);
      assert Header(v, count)[8..12] == Le(count, 4);
      if Header(v, count) <= s {
        assert s[..12] == Header(v, count);
        assert s[4..8] == s[..12][4..8] && s[8..12] == s[..12][8..12] && s[..4] == s[..12][..4];
      }
    }
  }

  lemma ParsedIndexIsEncoded(v: Layout, s: seq<byte>, es: seq<Entry>)
    requires ParseIndex(v, s) == Some(es)
    ensures FitsIndex(v, es) && EncodeIndex(v, es) <= s
  {
    var count := FromLe(s[8..12]);
    Widths();
    LeOfFromLe(s[8..12]);
    var rest := Many(EntryParser(v), s[12..], count).value.1;
    EntryExact(v);
    ManyExact(EntryParser(v), EncodeEntry, Fitting(v), s[12..], count, es, rest);
    HeaderExact(v, s, count);
    assert s[..12] == Header(v, count);
    Rejoin(s, 12, EncodeEntries(es), rest);
  }

  lemma EncodedIndexParses(v: Layout, s: seq<byte>, es: seq<Entry>)
    requires FitsIndex(v, es) && EncodeIndex(v, es) <= s
    ensures ParseIndex(v, s) == Some(es)
  {
    var n := |EncodeIndex(v, es)|;
    assert s == EncodeIndex(v, es) + s[n..];
    Cut(s, Header(v, |es|), EncodeEntries(es), s[n..]);
    HeaderExact(v, s, |es|);
    EntryExact(v);
    ManyExact(EntryParser(v), EncodeEntry, Fitting(v), s[12..], |es|, es, s[n..]);
  }

  /** The reader accepts a file exactly when it starts with the encoding of the returned entries. */
  lemma IndexExact(v: Layout, s: seq<byte>, es: seq<Entry>)
    ensures ParseIndex(v, s) == Some(es) <==> FitsIndex(v, es) && EncodeIndex(v, es) <= s
  {
    if ParseIndex(v, s) == Some(es) {
      ParsedIndexIsEncoded(v, s, es);
    }
    if FitsIndex(v, es) && EncodeIndex(v, es) <= s {
      EncodedIndexParses(v, s, es);
    }
  }

  /** Every written index is read back identically, whatever follows it in the file. */
  lemma RoundTrip(v: Layout, es: seq<Entry>, trailing: seq<byte>)
    requires FitsIndex(v, es)
    ensures ParseIndex(v, EncodeIndex(v, es) + trailing) == Some(es)
  {
    IndexExact(v, EncodeIndex(v, es) + trailing, es);
  }

  /** No strict prefix of a written index is readable. */
  lemma StrictPrefixRejected(v: Layout, es: seq<Entry>, s: seq<byte>)
    requires FitsIndex(v, es) && s < EncodeIndex(v, es)
    ensures ParseIndex(v, s) == None
  {
    if ParseIndex(v, s).Some? {
      var got := ParseIndex(v, s).value;
      ParsedIndexIsEncoded(v, s, got);
      EncodedIndexParses(v, EncodeIndex(v, es), got);
      EncodedIndexParses(v, EncodeIndex(v, es), es);
      assert false;
    }
  }

  /** No file is readable in two versions of the layout. */
  lemma VersionsDisjoint(v: Layout, w: Layout, s: seq<byte>)
    requires v.version != w.version
    ensures ParseIndex(v, s).None? || ParseIndex(w, s).None?
  {
  }
}
