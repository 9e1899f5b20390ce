/** The CHK string table in its two widths, and the line breaks of in-game text. */
module ChkStrings {
  import opened Bytes
  import opened ChkDigest
  import opened ChkSections
  import opened Wrappers

  // ---------- reading a table: any bytes ----------

  predicate IsWidth(width: nat) {
    width == 2 || width == 4
  }

  /** The bytes before the first NUL, or all of them. */
  function UpToNul(s: seq<byte>): seq<byte> {
    if s == [] || s[0] == 0 then [] else [s[0]] + UpToNul(s[1..])
  }

  function ReadOffset(data: seq<byte>, offset: nat, width: nat): Option<nat> {
    if IsWidth(width) && offset + width <= |data| then Some(FromLe(data[offset..offset + width])) else None
  }

  /** The raw bytes of the entry numbered `idx` from 0; none when its offset leads nowhere. */
  function RawEntry(data: seq<byte>, idx: nat, width: nat): Option<seq<byte>> {
    match ReadOffset(data, width * (idx + 1), width)
    case None => None
    case Some(offset) => if offset == 0 || offset >= |data| then None else Some(UpToNul(data[offset..]))
  }

  function EntryCount(data: seq<byte>, width: nat): nat
    requires IsWidth(width) && |data| >= width
  {
    var raw := if ReadOffset(data, 0, width).Some? then ReadOffset(data, 0, width).value else 0;
    var max := (|data| - width) / width;
    if raw < max then raw else max
  }

  /** `parse_string_section`, the text decoding being a parameter. */
  function ParseStringSection(data: seq<byte>, width: nat, decode: seq<byte> -> string): seq<string>
    requires IsWidth(width)
  {
    if |data| < width then []
    else
      seq(EntryCount(data, width), idx requires 0 <= idx =>
        match RawEntry(data, idx, width)
        case None => ""
        case Some(raw) => decode(raw))
  }

  /** `_string_at`: ids count from 1, and 0 or an id past the table names no string. */
  function StringAt(strings: seq<string>, id: nat): string {
    if 1 <= id <= |strings| then strings[id - 1] else ""
  }

  /** `parse_strings`: the extended table wins over the legacy one. */
  function ParseStrings(sections: Assembly, decode: seq<byte> -> string): seq<string> {
    if "STRx" in sections then ParseStringSection(sections["STRx"], 4, decode)
    else if "STR " in sections then ParseStringSection(sections["STR "], 2, decode)
    else []
  }

  /** Whatever the bytes, every entry reported has its offset field inside the section. */
  lemma EntriesInBounds(data: seq<byte>, width: nat, idx: nat)
    requires IsWidth(width) && |data| >= width && idx < EntryCount(data, width)
    ensures width * (idx + 1) + width <= |data|
    ensures ReadOffset(data, width * (idx + 1), width).Some?
    ensures RawEntry(data, idx, width).Some? ==> 0 !in RawEntry(data, idx, width).value
  {
    var o := ReadOffset(data, width * (idx + 1), width);
    if o.Some? && 0 < o.value < |data| {
      NoNul(data[o.value..]);
    }
  }

  lemma {:induction false} NoNul(s: seq<byte>)
    ensures 0 !in UpToNul(s)
  {
    if s != [] && s[0] != 0 {
      NoNul(s[1..]);
    }
  }

  /** `e` is where the string at `from` ends: the next NUL, or else the end of the section. */
  ghost predicate EndsAt(data: seq<byte>, from: nat, e: nat) {
    from <= e <= |data| && (e == |data| || data[e] == 0) && forall k | from <= k < e :: data[k] != 0
  }

  lemma {:induction false} UpToNulEnds(data: seq<byte>, from: nat)
    requires from <= |data|
    ensures var e := from + |UpToNul(data[from..])|; EndsAt(data, from, e) && UpToNul(data[from..]) == data[from..e]
    decreases |data| - from
  {
    if from < |data| && data[from] != 0 {
      UpToNulEnds(data, from + 1);
      assert data[from..][1..] == data[from + 1..];
    }
  }

  /** The string an offset stands for: none at 0 or past the section, else what is there up to the next NUL. */
  ghost predicate IsStringAt(data: seq<byte>, offset: nat, decode: seq<byte> -> string, s: string) {
    if offset == 0 || offset >= |data| then s == ""
    else exists e: nat :: EndsAt(data, offset, e) && s == decode(data[offset..e])
  }

  lemma EntryExact(data: seq<byte>, width: nat, decode: seq<byte> -> string, i: nat)
    requires IsWidth(width) && |data| >= width && i < EntryCount(data, width)
    ensures width * (i + 2) <= |data|
    ensures IsStringAt(data, FromLe(data[width * (i + 1)..width * (i + 2)]), decode,
                       ParseStringSection(data, width, decode)[i])
  {
    EntriesInBounds(data, width, i);
    Distribute(width, i + 1);
    hide FromLe, UpToNul, EntryCount;
    var offset := FromLe(data[width * (i + 1)..width * (i + 2)]);
    if 0 < offset < |data| {
      UpToNulEnds(data, offset);
    }
  }

  /**
  A table of any bytes: as many strings as its first field says and offset fields fit behind it, each
  the one its offset field leads to.
  */
  lemma TableExact(data: seq<byte>, width: nat, decode: seq<byte> -> string)
    requires IsWidth(width)
    ensures var strings := ParseStringSection(data, width, decode);
            if |data| < width then strings == []
            else
              && |strings| <= FromLe(data[..width]) && width * (|strings| + 1) <= |data|
              && (|strings| < FromLe(data[..width]) ==> width * (|strings| + 2) > |data|)
              && forall i | 0 <= i < |strings| ::
                   width * (i + 2) <= |data|
                   && IsStringAt(data, FromLe(data[width * (i + 1)..width * (i + 2)]), decode, strings[i])
  {
    if |data| >= width {
      assert data[0..0 + width] == data[..width];
      CountFits(|data|, width, EntryCount(data, width));
      hide FromLe, IsStringAt;
      forall i: nat | i < EntryCount(data, width)
        ensures width * (i + 2) <= |data|
        ensures IsStringAt(data, FromLe(data[width * (i + 1)..width * (i + 2)]), decode,
                           ParseStringSection(data, width, decode)[i])
      {
        EntryExact(data, width, decode, i);
      }
    }
  }

  lemma CountFits(n: nat, width: nat, count: nat)
    requires IsWidth(width) && n >= width && count <= (n - width) / width
    ensures width * (count + 1) <= n
    ensures count == (n - width) / width ==> width * (count + 2) > n
  {
  }

  // ---------- laying a table out ----------

  /** The values one after the other, each ended by a NUL. */
  function Pool(values: seq<seq<byte>>): seq<byte> {
    if values == [] then [] else (values[0] + [0]) + Pool(values[1..])
  }

  function Offsets(values: seq<seq<byte>>, cursor: nat, width: nat): seq<byte> {
    if values == [] then [] else Le(cursor, width) + Offsets(values[1..], cursor + |values[0]| + 1, width)
  }

  /** Count, offsets, values. */
  function StringSection(values: seq<seq<byte>>, width: nat): seq<byte> {
    (Le(|values|, width) + Offsets(values, width * (|values| + 1), width)) + Pool(values)
  }

  predicate FitsTable(values: seq<seq<byte>>, width: nat) {
    |StringSection(values, width)| <= Pow256(width) && forall i | 0 <= i < |values| :: 0 !in values[i]
  }

  lemma Distribute(width: nat, n: nat)
    ensures width * (n + 1) == width * n + width
  {
  }

  lemma {:induction false} OffsetsLength(values: seq<seq<byte>>, cursor: nat, width: nat)
    ensures |Offsets(values, cursor, width)| == width * |values|
  {
    if values != [] {
      OffsetsLength(values[1..], cursor + |values[0]| + 1, width);
      Distribute(width, |values| - 1);
    }
  }

  /** The `i`-th offset field points just past the pool of the earlier values. */
  lemma {:induction false} OffsetAt(values: seq<seq<byte>>, cursor: nat, width: nat, i: nat)
    requires i < |values|
    ensures |Offsets(values, cursor, width)| >= width * i + width
    ensures Offsets(values, cursor, width)[width * i..width * i + width] == Le(cursor + |Pool(values[..i])|, width)
  {
    hide Offsets, Pool, Le;
    OffsetsCons(values, cursor, width);
    OffsetsEnough(values, cursor, width, i);
    var head, rest := Le(cursor, width), Offsets(values[1..], cursor + |values[0]| + 1, width);
    if i == 0 {
      NoPool(values);
      assert width * 0 == 0;
      assert (head + rest)[0..width] == head;
    } else {
      OffsetAt(values[1..], cursor + |values[0]| + 1, width, i - 1);
      Distribute(width, i - 1);
      PoolOfPrefix(values, i);
      SkipHead(head, rest, width * (i - 1), width);
    }
  }

  lemma OffsetsCons(values: seq<seq<byte>>, cursor: nat, width: nat)
    requires values != []
    ensures Offsets(values, cursor, width) == Le(cursor, width) + Offsets(values[1..], cursor + |values[0]| + 1, width)
  {
    hide Le;
  }

  lemma OffsetsEnough(values: seq<seq<byte>>, cursor: nat, width: nat, i: nat)
    requires i < |values|
    ensures |Offsets(values, cursor, width)| >= width * i + width
  {
    hide Offsets;
    OffsetsLength(values, cursor, width);
    Distribute(width, i);
    assert width * (i + 1) <= width * |values|;
  }

  lemma NoPool(values: seq<seq<byte>>)
    ensures Pool(values[..0]) == []
  {
  }

  lemma SkipHead(head: seq<byte>, rest: seq<byte>, k: nat, n: nat)
    requires k + n <= |rest|
    ensures (head + rest)[|head| + k..|head| + k + n] == rest[k..k + n]
  {
  }

  lemma PoolOfPrefix(values: seq<seq<byte>>, i: nat)
    requires 0 < i <= |values|
    ensures |Pool(values[..i])| == |values[0]| + 1 + |Pool(values[1..][..i - 1])|
  {
    assert values[..i][0] == values[0] && values[..i][1..] == values[1..][..i - 1];
  }

  lemma {:induction false} PoolAt(values: seq<seq<byte>>, i: nat)
    requires i < |values|
    ensures |Pool(values[..i])| < |Pool(values)|
    ensures Pool(values)[|Pool(values[..i])|..] == (values[i] + [0]) + Pool(values[i + 1..])
  {
    if i == 0 {
      assert Pool(values[..0]) == [];
    } else {
      PoolAt(values[1..], i - 1);
      assert values[..i][0] == values[0] && values[..i][1..] == values[1..][..i - 1];
      assert values[1..][i..] == values[i + 1..];
      var h := |values[0]| + 1;
      assert Pool(values)[h..] == Pool(values[1..]);
      var k := |Pool(values[1..][..i - 1])|;
      assert Pool(values)[h + k..] == Pool(values[1..])[k..];
    }
  }

  lemma {:induction false} UpToNulOfTerminated(v: seq<byte>, rest: seq<byte>)
    requires 0 !in v
    ensures UpToNul((v + [0]) + rest) == v
  {
    var s := (v + [0]) + rest;
    if v != [] {
      UpToNulOfTerminated(v[1..], rest);
      assert s[1..] == (v[1..] + [0]) + rest;
    }
  }

  lemma SectionParts(values: seq<seq<byte>>, width: nat)
    requires IsWidth(width)
    ensures var s, n := StringSection(values, width), |values|;
            var t := width * (n + 1);
            && t <= |s| && s[..width] == Le(n, width)
            && s[width..t] == Offsets(values, t, width) && s[t..] == Pool(values)
  {
    OffsetsLength(values, width * (|values| + 1), width);
    Distribute(width, |values|);
  }

  lemma SliceOfSlice(s: seq<byte>, a: nat, b: nat, c: nat, d: nat)
    requires a <= b <= |s| && c <= d <= b - a
    ensures s[a..b][c..d] == s[a + c..a + d]
  {
    var l, r := s[a..b][c..d], s[a + c..a + d];
    assert |l| == |r|;
    assert forall k | 0 <= k < |l| :: l[k] == s[a + c + k] == r[k];
  }

  lemma DropOfDrop(s: seq<byte>, a: nat, b: nat)
    requires a + b <= |s|
    ensures s[a..][b..] == s[a + b..]
  {
  }

  lemma OffsetField(values: seq<seq<byte>>, width: nat, i: nat)
    requires IsWidth(width) && i < |values|
    ensures var s, o := StringSection(values, width), width * (i + 1);
            && o + width <= |s|
            && s[o..o + width] == Le(width * (|values| + 1) + |Pool(values[..i])|, width)
  {
    var s, t := StringSection(values, width), width * (|values| + 1);
    SectionParts(values, width);
    OffsetAt(values, t, width, i);
    OffsetsLength(values, t, width);
    Distribute(width, i);
    Distribute(width, |values|);
    hide StringSection, Offsets, Pool, Le;
    SliceOfSlice(s, width, t, width * i, width * i + width);
    assert width * (i + 1) == width + width * i;
  }

  lemma OffsetOfSection(values: seq<seq<byte>>, width: nat, i: nat)
    requires IsWidth(width) && FitsTable(values, width) && i < |values|
    ensures ReadOffset(StringSection(values, width), width * (i + 1), width)
         == Some(width * (|values| + 1) + |Pool(values[..i])|)
    ensures width * (|values| + 1) + |Pool(values[..i])| < |StringSection(values, width)|
  {
    var s, t := StringSection(values, width), width * (|values| + 1);
    SectionParts(values, width);
    OffsetsLength(values, t, width);
    Distribute(width, |values|);
    PoolAt(values, i);
    OffsetField(values, width, i);
    hide StringSection, Offsets, Pool, Le, FromLe, Pow256;
    assert |s| == t + |Pool(values)|;
    FromLeOfLe(t + |Pool(values[..i])|, width);
  }

  lemma EntryOfSection(values: seq<seq<byte>>, width: nat, i: nat)
    requires IsWidth(width) && FitsTable(values, width) && i < |values|
    ensures RawEntry(StringSection(values, width), i, width) == Some(values[i])
  {
    hide StringSection, Pool, UpToNul, ReadOffset;
    var s, t, k := StringSection(values, width), width * (|values| + 1), |Pool(values[..i])|;
    OffsetOfSection(values, width, i);
    SectionParts(values, width);
    PoolAt(values, i);
    UpToNulOfTerminated(values[i], Pool(values[i + 1..]));
    Distribute(width, |values|);
    DropOfDrop(s, t, k);
  }

  /** Ids from 1 name the values, and nothing else is named. */
  ghost predicate Lists(strings: seq<string>, values: seq<seq<byte>>, decode: seq<byte> -> string) {
    && |strings| == |values|
    && (forall i | 0 <= i < |values| :: StringAt(strings, i + 1) == decode(values[i]))
    && (forall id: nat | id == 0 || id > |values| :: StringAt(strings, id) == "")
  }

  /** A table laid out from NUL-free values is read back as exactly those values, at ids from 1. */
  lemma TableRoundTrip(values: seq<seq<byte>>, width: nat, decode: seq<byte> -> string)
    requires IsWidth(width) && FitsTable(values, width)
    ensures Lists(ParseStringSection(StringSection(values, width), width, decode), values, decode)
  {
    var s := StringSection(values, width);
    SectionParts(values, width);
    Distribute(width, |values|);
    hide StringSection, RawEntry;
    assert |values| < Pow256(width);
    FromLeOfLe(|values|, width);
    assert EntryCount(s, width) == |values| by {
      assert ReadOffset(s, 0, width) == Some(|values|);
      assert (|s| - width) / width >= |values|;
    }
    forall i | 0 <= i < |values|
      ensures ParseStringSection(s, width, decode)[i] == decode(values[i])
    {
      EntryOfSection(values, width, i);
    }
  }

  /**
  From the file to its strings: the last extended table counts, and a legacy table only where there
  is no extended one.
  */
  lemma FileStringsReadBack(
      data: seq<byte>, ss: seq<Section>, tail: seq<byte>, width: nat, values: seq<seq<byte>>, decode: seq<byte> -> string)
    requires AllFit(ss) && |ss| <= MAX_SECTIONS && |tail| < 8 && data == EncodeSections(ss) + tail
    requires IsWidth(width) && FitsTable(values, width)
    requires var name := if width == 4 then "STRx" else "STR ";
             Bodies(ss, name) != [] && Bodies(ss, name)[|Bodies(ss, name)| - 1] == StringSection(values, width)
    requires width == 2 ==> Bodies(ss, "STRx") == []
    ensures Lists(ParseStrings(ChkAssembly(data), decode), values, decode)
  {
    hide Walk, Assemble, Bodies, StringSection, ParseStringSection, FitsTable, EncodeSections;
    assert data[0..] == data;
    WalkOfEncoded(data, 0, ss, tail, MAX_SECTIONS);
    AssembledByName(ss, "STRx");
    AssembledByName(ss, "STR ");
    TableRoundTrip(values, width, decode);
  }

  // ---------- line breaks ----------

  function ReplaceCrLf(s: string): string {
    if |s| >= 2 && s[0] == '\r' && s[1] == '\n' then "\n" + ReplaceCrLf(s[2..])
    else if s == "" then ""
    else [s[0]] + ReplaceCrLf(s[1..])
  }

  function ReplaceChar(s: string, c: char, by_: string): string {
    if s == "" then ""
    else (if s[0] == c then by_ else [s[0]]) + ReplaceChar(s[1..], c, by_)
  }

  /** `crlf_line_breaks`: three passes over the text. */
  function CrlfLineBreaks(s: string): string {
    ReplaceChar(ReplaceChar(ReplaceCrLf(s), '\r', "\n"), '\n', "\r\n")
  }

  /** One left-to-right pass: a CRLF pair, a lone CR and a lone LF are each one line break. */
  function OnePass(s: string): string {
    if |s| >= 2 && s[0] == '\r' && s[1] == '\n' then "\r\n" + OnePass(s[2..])
    else if s == "" then ""
    else if s[0] == '\r' || s[0] == '\n' then "\r\n" + OnePass(s[1..])
    else [s[0]] + OnePass(s[1..])
  }

  lemma ReplaceCharHead(c: char, s: string, d: char, by_: string)
    ensures ReplaceChar([c] + s, d, by_) == (if c == d then by_ else [c]) + ReplaceChar(s, d, by_)
  {
  }

  lemma {:induction false} ThreePassesAreOne(s: string)
    ensures CrlfLineBreaks(s) == OnePass(s)
  {
    if s != "" {
      var pair := |s| >= 2 && s[0] == '\r' && s[1] == '\n';
      var rest := if pair then s[2..] else s[1..];
      var head := if pair then '\n' else s[0];
      ThreePassesAreOne(rest);
      var first := ReplaceCrLf(rest);
      var second := ReplaceChar(first, '\r', "\n");
      assert ReplaceCrLf(s) == [head] + first;
      ReplaceCharHead(head, first, '\r', "\n");
      var mid := if head == '\r' then '\n' else head;
      assert ReplaceChar([head] + first, '\r', "\n") == [mid] + second;
      ReplaceCharHead(mid, second, '\n', "\r\n");
    }
  }

  lemma {:induction false} OnePassSettles(s: string)
    ensures OnePass(OnePass(s)) == OnePass(s)
  {
    if s != "" {
      var pair := |s| >= 2 && s[0] == '\r' && s[1] == '\n';
      var rest := if pair then s[2..] else s[1..];
      OnePassSettles(rest);
      if s[0] == '\r' || s[0] == '\n' {
        assert OnePass(s)[2..] == OnePass(rest);
      } else {
        assert OnePass(s)[1..] == OnePass(rest);
      }
    }
  }

  /** Normalised text is left alone, so writing a description twice does not grow it. */
  lemma LineBreaksIdempotent(s: string)
    ensures CrlfLineBreaks(CrlfLineBreaks(s)) == CrlfLineBreaks(s)
  {
    ThreePassesAreOne(s);
    ThreePassesAreOne(OnePass(s));
    OnePassSettles(s);
  }
}
