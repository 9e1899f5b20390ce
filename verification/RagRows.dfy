/** The corpus entries derived from one input row: text, label, tier and stable ids. */
module RagRows {
  import opened Bytes
  import opened Fnv
  import opened RagCorpus
  import opened RagMigration
  import opened Text
  import opened Wrappers
  import Utf8

  datatype Row = Row(
    id: Option<string>, title: string, url: Option<string>, source: string, content: string, comments: Option<string>)

  function OrEmpty(s: Option<string>): string {
    if s.Some? then s.value else ""
  }

  function Stem(source: string): string {
    if EndsWith(source, ".jsonl") then source[..|source| - 6] else source
  }

  function TierLevel(source: string): byte {
    var stem := Stem(source);
    if stem in ["eud_book", "cafebook", "scrmapdocs_en", "eudplib_api", "eudplib_examples", "eud_editor_schema"] then 3
    else if stem in ["eudtools_wiki", "eudtools_reference", "board_강좌팁", "board_연구칼럼"] then 2
    else if stem == "board_질문답변" then 0
    else 1
  }

  function RowText(row: Row): string {
    var comments := Trim(OrEmpty(row.comments));
    "제목: " + Trim(row.title) + "\n\n" + Trim(row.content) +
    if comments == "" then "" else "\n\n[댓글]\n" + comments
  }

  function RowLabel(row: Row): string {
    var url := Trim(OrEmpty(row.url));
    "[" + Trim(row.title) + "]" + if url == "" then "" else "(" + url + ")"
  }

  function RowKey(row: Row, file: string, line: nat): string {
    var id := Trim(OrEmpty(row.id));
    var url := Trim(OrEmpty(row.url));
    if id != "" then "id:" + id
    else if url != "" then "url:" + url
    else "source:" + row.source + ":" + file + ":" + Decimal(line)
  }

  function ChunkKey(key: string, k: nat): string {
    key + "#" + Decimal(k)
  }

  function ChunkLabel(name: string, k: nat, total: nat): string {
    if total == 1 then name else name + " (part " + Decimal(k + 1) + "/" + Decimal(total) + ")"
  }

  function RowChunks(row: Row): seq<string> {
    Chunks(RowText(row), CHUNK_CHARS, CHUNK_OVERLAP)
  }

  predicate IsBlank(row: Row) {
    Trim(row.content) == "" && Trim(OrEmpty(row.comments)) == ""
  }

  function RowEntry(row: Row, file: string, line: nat, k: nat): CorpusEntry
    requires k < |RowChunks(row)|
  {
    var chunks := RowChunks(row);
    CorpusEntry(
      Fnv1a64(Utf8.Encode(ChunkKey(RowKey(row, file, line), k))),
      TierLevel(row.source),
      Utf8.Encode(chunks[k]),
      Utf8.Encode(ChunkLabel(RowLabel(row), k, |chunks|)))
  }

  /** `corpus_entries_from_row`, which `corpus_docs_from_row` repeats for the index builder. */
  function RowEntries(row: Row, file: string, line: nat): seq<CorpusEntry> {
    if IsBlank(row) then []
    else seq(|RowChunks(row)|, k requires 0 <= k < |RowChunks(row)| => RowEntry(row, file, line, k))
  }

  // ---------- what the derivation guarantees ----------

  /** Decoding the entries' texts and dropping the overlaps gives back the whole text of the row. */
  lemma RowLosesNothing(row: Row, file: string, line: nat, texts: seq<string>)
    requires |texts| == |RowEntries(row, file, line)|
    requires forall k | 0 <= k < |texts| :: Utf8.Decode(RowEntries(row, file, line)[k].text) == Some(texts[k])
    ensures if IsBlank(row) then texts == []
            else && texts != [] && CoverOverlap(texts[1..], CHUNK_OVERLAP)
                 && texts[0] + WithoutOverlap(texts[1..], CHUNK_OVERLAP) == RowText(row)
  {
    hide RowText, TierLevel, Fnv1a64, ChunkKey, ChunkLabel, RowKey, RowLabel, Chunks, Utf8.Decode, Utf8.Encode;
    if !IsBlank(row) {
      var chunks := RowChunks(row);
      forall k | 0 <= k < |texts| ensures texts[k] == chunks[k] {
        Utf8.DecodeOfEncode(chunks[k]);
      }
      assert texts == chunks;
      ChunksReassemble(RowText(row), CHUNK_CHARS, CHUNK_OVERLAP);
    }
  }

  /**
  The text of a row opens with its title and content, goes on only where there are comments, and then
  ends with them.
  */
  lemma RowTextHolds(row: Row)
    ensures var opening := "제목: " + Trim(row.title) + "\n\n" + Trim(row.content);
            var comments := Trim(OrEmpty(row.comments));
            && StartsWith(RowText(row), opening)
            && (RowText(row) == opening <==> comments == "")
            && (comments != "" ==> EndsWith(RowText(row), "\n\n[댓글]\n" + comments)
                                   && |RowText(row)| == |opening| + 7 + |comments|)
  {
    hide Trim;
    var opening := "제목: " + Trim(row.title) + "\n\n" + Trim(row.content);
    var comments := Trim(OrEmpty(row.comments));
    if comments != "" {
      var closing := "\n\n[댓글]\n" + comments;
      assert RowText(row) == opening + closing;
    }
  }

  lemma EntryLabel(row: Row, file: string, line: nat, i: nat)
    requires i < |RowEntries(row, file, line)|
    ensures Utf8.Decode(RowEntries(row, file, line)[i].source)
         == Some(ChunkLabel(RowLabel(row), i, |RowEntries(row, file, line)|))
  {
    hide IsBlank, Utf8.Encode, Utf8.Decode, Fnv1a64, RowKey, RowLabel, ChunkKey, ChunkLabel, TierLevel, RowChunks;
    Utf8.DecodeOfEncode(ChunkLabel(RowLabel(row), i, |RowChunks(row)|));
  }

  lemma LabelsApart(name: string, i: nat, j: nat, total: nat)
    requires i < total && j < total && i != j
    ensures ChunkLabel(name, i, total) != ChunkLabel(name, j, total)
  {
    hide Decimal;
    var rest := "/" + Decimal(total) + ")";
    assert ChunkLabel(name, i, total) == (name + " (part ") + (Decimal(i + 1) + rest);
    assert ChunkLabel(name, j, total) == (name + " (part ") + (Decimal(j + 1) + rest);
    hide ChunkLabel;
    if ChunkLabel(name, i, total) == ChunkLabel(name, j, total) {
      Behind(name + " (part ", Decimal(i + 1) + rest, Decimal(j + 1) + rest);
      Before(rest, Decimal(i + 1), Decimal(j + 1));
      DecimalInjective(i + 1, j + 1);
    }
  }

  /** An entry names its row, and which part of how many it is when there are several; so no two labels agree. */
  lemma {:induction false} LabelTellsPart(row: Row, file: string, line: nat, i: nat, j: nat)
    requires i < |RowEntries(row, file, line)| && j < |RowEntries(row, file, line)|
    ensures var es := RowEntries(row, file, line);
            var url := Trim(OrEmpty(row.url));
            var name := "[" + Trim(row.title) + "]" + if url == "" then "" else "(" + url + ")";
            && Utf8.Decode(es[i].source) ==
                 Some(if |es| == 1 then name else name + " (part " + Decimal(i + 1) + "/" + Decimal(|es|) + ")")
            && (i != j ==> es[i].source != es[j].source)
  {
    hide Trim, OrEmpty, Decimal, Utf8.Decode, RowEntries;
    EntryLabel(row, file, line, i);
    EntryLabel(row, file, line, j);
    if i != j {
      LabelsApart(RowLabel(row), i, j, |RowEntries(row, file, line)|);
    }
  }

  lemma Before(tag: string, x: string, y: string)
    requires x + tag == y + tag
    ensures x == y
  {
    assert (x + tag)[..|x|] == x && (y + tag)[..|y|] == y && |x| == |y|;
  }

  lemma LastIsAt(x: string, y: string, c: char)
    requires c !in y
    ensures var s := x + [c] + y; s[|x|] == c && forall k | |x| < k < |s| :: s[k] != c
  {
  }

  lemma CutAtLast(x: string, y: string, u: string, v: string, c: char)
    requires x + [c] + y == u + [c] + v && c !in y && c !in v
    ensures x == u && y == v
  {
    var s := x + [c] + y;
    LastIsAt(x, y, c);
    LastIsAt(u, v, c);
    assert s[..|x|] == x && s[..|u|] == u && s[|x| + 1..] == y && s[|u| + 1..] == v;
  }

  lemma SourceKeys(s: string, f: string, i: nat, t: string, g: string, j: nat)
    requires ':' !in f && ':' !in g
    ensures s + ":" + f + ":" + Decimal(i) == t + ":" + g + ":" + Decimal(j) <==> s == t && f == g && i == j
  {
    DecimalReads(i);
    DecimalReads(j);
    hide Decimal, ReadDecimal;
    if s + ":" + f + ":" + Decimal(i) == t + ":" + g + ":" + Decimal(j) {
      assert (s + ":" + f) + [':'] + Decimal(i) == (t + ":" + g) + [':'] + Decimal(j);
      CutAtLast(s + ":" + f, Decimal(i), t + ":" + g, Decimal(j), ':');
      CutAtLast(s, f, t, g, ':');
    }
  }

  /** Two rows have the same key exactly when they agree on what identifies them: id, else address, else place. */
  lemma SameKeyIff(a: Row, f: string, i: nat, b: Row, g: string, j: nat)
    requires ':' !in f && ':' !in g
    ensures RowKey(a, f, i) == RowKey(b, g, j) <==>
              if Trim(OrEmpty(a.id)) != "" || Trim(OrEmpty(b.id)) != "" then Trim(OrEmpty(a.id)) == Trim(OrEmpty(b.id))
              else if Trim(OrEmpty(a.url)) != "" || Trim(OrEmpty(b.url)) != "" then Trim(OrEmpty(a.url)) == Trim(OrEmpty(b.url))
              else a.source == b.source && f == g && i == j
  {
    SourceKeys("source:" + a.source, f, i, "source:" + b.source, g, j);
    Behind("source:", a.source, b.source);
    Behind("id:", Trim(OrEmpty(a.id)), Trim(OrEmpty(b.id)));
    Behind("url:", Trim(OrEmpty(a.url)), Trim(OrEmpty(b.url)));
    KeyTag(a, f, i);
    KeyTag(b, g, j);
    hide Trim, Decimal, OrEmpty;
    assert RowKey(a, f, i)[0] != RowKey(b, g, j)[0] ==> RowKey(a, f, i) != RowKey(b, g, j);
  }

  lemma Behind(tag: string, x: string, y: string)
    ensures tag + x == tag + y <==> x == y
  {
    assert (tag + x)[|tag|..] == x && (tag + y)[|tag|..] == y;
  }

  lemma KeyTag(row: Row, file: string, line: nat)
    ensures RowKey(row, file, line) != ""
    ensures RowKey(row, file, line)[0] ==
              if Trim(OrEmpty(row.id)) != "" then 'i' else if Trim(OrEmpty(row.url)) != "" then 'u' else 's'
  {
    hide Trim, Decimal;
  }

  /** A source is listed with or without the suffix of its file. */
  predicate IsNamed(source: string, stems: seq<string>) {
    exists i | 0 <= i < |stems| :: source == stems[i] || source == stems[i] + ".jsonl"
  }

  /** The tier of every source: primary references, curated texts and questions are listed, all else is general. */
  lemma TierExact(source: string)
    ensures TierLevel(source) == 3 <==> IsNamed(source,
              ["eud_book", "cafebook", "scrmapdocs_en", "eudplib_api", "eudplib_examples", "eud_editor_schema"])
    ensures TierLevel(source) == 2 <==> IsNamed(source,
              ["eudtools_wiki", "eudtools_reference", "board_강좌팁", "board_연구칼럼"])
    ensures TierLevel(source) == 0 <==> IsNamed(source, ["board_질문답변"])
    ensures TierLevel(source) <= 3
  {
    hide Stem, IsNamed;
    NamedPrimary(source);
    NamedOther(source);
  }

  lemma NamedPrimary(source: string)
    ensures var stems := ["eud_book", "cafebook", "scrmapdocs_en", "eudplib_api", "eudplib_examples", "eud_editor_schema"];
            IsNamed(source, stems) <==> Stem(source) in stems
  {
    hide Stem, IsNamed;
    NamedIff(source, ["eud_book", "cafebook", "scrmapdocs_en", "eudplib_api", "eudplib_examples", "eud_editor_schema"]);
  }

  lemma NamedOther(source: string)
    ensures var stems := ["eudtools_wiki", "eudtools_reference", "board_강좌팁", "board_연구칼럼"];
            IsNamed(source, stems) <==> Stem(source) in stems
    ensures IsNamed(source, ["board_질문답변"]) <==> Stem(source) in ["board_질문답변"]
  {
    hide Stem, IsNamed;
    NamedIff(source, ["eudtools_wiki", "eudtools_reference", "board_강좌팁", "board_연구칼럼"]);
    NamedIff(source, ["board_질문답변"]);
  }

  lemma NamedIff(source: string, stems: seq<string>)
    requires forall i | 0 <= i < |stems| :: stems[i] != "" && stems[i][|stems[i]| - 1] != 'l'
    ensures IsNamed(source, stems) <==> Stem(source) in stems
  {
    if EndsWith(source, ".jsonl") {
      assert source == Stem(source) + ".jsonl";
    }
    forall i | 0 <= i < |stems| && (source == stems[i] || source == stems[i] + ".jsonl") ensures Stem(source) == stems[i] {
      SuffixEnds(source);
    }
  }

  lemma SuffixEnds(source: string)
    ensures EndsWith(source, ".jsonl") ==> source[|source| - 1] == 'l'
  {
  }

  lemma DecimalLength(n: nat)
    ensures n < 10 <==> |Decimal(n)| == 1
    ensures n < 10000 ==> |Decimal(n)| <= 4
  {
    if n < 10000 {
      DecimalBound(n, 4);
    }
  }

  lemma {:induction false} DecimalBound(n: nat, width: nat)
    requires 1 <= width <= 4
    requires n < (if width == 1 then 10 else if width == 2 then 100 else if width == 3 then 1000 else 10000)
    ensures |Decimal(n)| <= width
  {
    if n >= 10 {
      DecimalBound(n / 10, width - 1);
    }
  }

  lemma {:induction false} EncodeDigits(s: string)
    requires AsciiDigits(s)
    ensures |Utf8.Encode(s)| == |s| && AllDigits(Utf8.Encode(s))
  {
    if s != "" {
      EncodeDigits(s[1..]);
      assert Utf8.Encode(s) == [s[0] as int] + Utf8.Encode(s[1..]);
    }
  }

  /** Chunk numbers with equally many digits, up to four, never share an id within a row. */
  lemma ChunkIdsDistinct(key: string, i: nat, j: nat)
    requires i != j && i < 10000 && j < 10000 && |Decimal(i)| == |Decimal(j)|
    ensures Fnv1a64(Utf8.Encode(ChunkKey(key, i))) != Fnv1a64(Utf8.Encode(ChunkKey(key, j)))
  {
    hide Fnv1a64, Utf8.Encode;
    var prefix, b, c := Utf8.Encode(key + "#"), Utf8.Encode(Decimal(i)), Utf8.Encode(Decimal(j));
    Utf8.EncodeConcat(key + "#", Decimal(i));
    Utf8.EncodeConcat(key + "#", Decimal(j));
    DecimalReads(i);
    DecimalReads(j);
    EncodeDigits(Decimal(i));
    EncodeDigits(Decimal(j));
    DecimalLength(i);
    DecimalLength(j);
    if b == c {
      Utf8.EncodeInjective(Decimal(i), Decimal(j));
      DecimalInjective(i, j);
    }
    DifferentWindowsDifferentIds(prefix, b, c, []);
    assert prefix + b + [] == prefix + b && prefix + c + [] == prefix + c;
  }

  /** The ids of a row of at most ten chunks are pairwise distinct; so are those numbered 10 to 99, and so on. */
  lemma {:induction false} RowIdsDistinct(row: Row, file: string, line: nat, i: nat, j: nat)
    requires i < j < |RowEntries(row, file, line)| && j < 10000 && |Decimal(i)| == |Decimal(j)|
    ensures RowEntries(row, file, line)[i].id != RowEntries(row, file, line)[j].id
  {
    hide Fnv1a64, Utf8.Encode, RowText, RowLabel, TierLevel, Chunks;
    ChunkIdsDistinct(RowKey(row, file, line), i, j);
  }

  /**
  Exactly when two chunk numbers under one key share an id, whatever their widths: the hash states
  before their last digits differ by just what those digits differ in.
  */
  lemma ChunkIdsCollideIff(key: string, i: nat, j: nat)
    ensures var h, s, t := Fnv1a64(Utf8.Encode(key + "#")), Utf8.Encode(Decimal(i)), Utf8.Encode(Decimal(j));
            && s != [] && t != []
            && (Fnv1a64(Utf8.Encode(ChunkKey(key, i))) == Fnv1a64(Utf8.Encode(ChunkKey(key, j))) <==>
                  Xor(HashFrom(h, s[..|s| - 1]), s[|s| - 1]) == Xor(HashFrom(h, t[..|t| - 1]), t[|t| - 1]))
  {
    hide Decimal, Xor, Utf8.Encode, HashFrom, AsciiDigits, AllDigits, ReadDecimal;
    var prefix, s, t := Utf8.Encode(key + "#"), Utf8.Encode(Decimal(i)), Utf8.Encode(Decimal(j));
    Utf8.EncodeConcat(key + "#", Decimal(i));
    Utf8.EncodeConcat(key + "#", Decimal(j));
    DecimalReads(i);
    DecimalReads(j);
    EncodeDigits(Decimal(i));
    EncodeDigits(Decimal(j));
    HashFromConcat(OFFSET_BASIS, prefix, s);
    HashFromConcat(OFFSET_BASIS, prefix, t);
    EndingsMeetIff(Fnv1a64(prefix), s, t);
  }

  /** Chunk numbers of one and of two digits share an id for 126 in 2^64 states of the key and a digit at most. */
  lemma OneAndTwoDigitIds(key: string, i: nat, j: nat)
    requires i < 10 <= j < 100
    requires Fnv1a64(Utf8.Encode(ChunkKey(key, i))) == Fnv1a64(Utf8.Encode(ChunkKey(key, j)))
    ensures |Utf8.Encode(Decimal(j))| == 2 && |Rare(63)| <= 126
    ensures Xor(Fnv1a64(Utf8.Encode(key + "#")), Utf8.Encode(Decimal(j))[0]) in Rare(63)
  {
    hide Decimal, Xor, Utf8.Encode, Rare, Step, ReadDecimal;
    var prefix, s, t := Utf8.Encode(key + "#"), Utf8.Encode(Decimal(i)), Utf8.Encode(Decimal(j));
    Utf8.EncodeConcat(key + "#", Decimal(i));
    Utf8.EncodeConcat(key + "#", Decimal(j));
    DecimalReads(i);
    DecimalReads(j);
    EncodeDigits(Decimal(i));
    EncodeDigits(Decimal(j));
    DecimalLength(i);
    DecimalLength(j);
    DecimalBound(j, 2);
    HashFromConcat(OFFSET_BASIS, prefix, s);
    HashFromConcat(OFFSET_BASIS, prefix, t);
    Unrolled(Fnv1a64(prefix), s);
    Unrolled(Fnv1a64(prefix), t);
    OneAgainstTwoDigits(Fnv1a64(prefix), s[0], t[0], t[1]);
  }

  /** So for the entries derived from one row. */
  lemma RowIdsCollideIff(row: Row, file: string, line: nat, i: nat, j: nat)
    requires i < |RowEntries(row, file, line)| && j < |RowEntries(row, file, line)|
    ensures var h, s, t := Fnv1a64(Utf8.Encode(RowKey(row, file, line) + "#")), Utf8.Encode(Decimal(i)), Utf8.Encode(Decimal(j));
            && s != [] && t != []
            && (RowEntries(row, file, line)[i].id == RowEntries(row, file, line)[j].id <==>
                  Xor(HashFrom(h, s[..|s| - 1]), s[|s| - 1]) == Xor(HashFrom(h, t[..|t| - 1]), t[|t| - 1]))
  {
    hide Decimal, Xor, HashFrom, Fnv1a64, RowKey, ChunkKey, RowChunks;
    ChunkIdsCollideIff(RowKey(row, file, line), i, j);
  }
}
