/**
The section walker of the CHK scenario format: a four-byte name, a signed 32-bit size, a body.
Real maps contain truncated bodies and negative sizes that jump backwards, and the walker
tolerates both.
*/
module ChkSections {
  import opened Bytes
  import opened Codecs

  const MAX_SECTIONS: nat := 10000

  datatype Section = Section(name: string, body: seq<byte>)

  /** Each byte of a name is taken as the character of the same code. */
  function Latin1(bs: seq<byte>): string {
    seq(|bs|, i requires 0 <= i < |bs| => bs[i] as char)
  }

  function ToI32(v: nat): int {
    if v >= 0x8000_0000 then v - 0x1_0000_0000 else v
  }

  predicate HasHeader(data: seq<byte>, pos: int) {
    0 <= pos && pos + 8 <= |data|
  }

  function SizeAt(data: seq<byte>, pos: int): int
    requires HasHeader(data, pos)
  {
    ToI32(FromLe(data[pos + 4..pos + 8]))
  }

  function BodyEnd(data: seq<byte>, pos: int): int
    requires HasHeader(data, pos)
  {
    var size := SizeAt(data, pos);
    if size < 0 then pos + 8
    else if pos + 8 + size < |data| then pos + 8 + size
    else |data|
  }

  function SectionAt(data: seq<byte>, pos: int): Section
    requires HasHeader(data, pos)
  {
    Section(Latin1(data[pos..pos + 4]), data[pos + 8..BodyEnd(data, pos)])
  }

  /** Where the walk continues: after the body, or backwards by a negative size. */
  function NextPos(data: seq<byte>, pos: int): int
    requires HasHeader(data, pos)
  {
    var size := SizeAt(data, pos);
    if size < 0 then pos + 8 + size else BodyEnd(data, pos)
  }

  /** The sections from `pos` on, at most `room` of them. */
  function Walk(data: seq<byte>, pos: int, room: nat): (sections: seq<Section>)
    ensures |sections| <= room
    decreases room, data
  {
    if room == 0 || !HasHeader(data, pos) then []
    else [SectionAt(data, pos)] + Walk(data, NextPos(data, pos), room - 1)
  }

  /** One turn of the walk: the section at `pos`, and where to look for the next. */
  method ReadSection(data: seq<byte>, pos: int) returns (s: Section, next: int)
    requires HasHeader(data, pos)
    ensures s == SectionAt(data, pos) && next == NextPos(data, pos)
  {
    var name := Latin1(data[pos..pos + 4]);
    var size := ToI32(FromLe(data[pos + 4..pos + 8]));
    hide Latin1, ToI32, FromLe;
    var bodyStart := pos + 8;
    if size >= 0 {
      var bodyEnd := if bodyStart + size < |data| then bodyStart + size else |data|;
      s := Section(name, data[bodyStart..bodyEnd]);
      next := bodyEnd;
    } else {
      s := Section(name, []);
      next := bodyStart + size;
    }
  }

  /** The sections found so far and those still to come from `pos` make up the whole walk. */
  ghost predicate Walked(data: seq<byte>, sections: seq<Section>, pos: int, cap: nat) {
    |sections| <= cap && Walk(data, 0, cap) == sections + Walk(data, pos, cap - |sections|)
  }

  /** `walk_sections`. */
  method WalkSections(data: seq<byte>) returns (sections: seq<Section>)
    ensures sections == Walk(data, 0, MAX_SECTIONS)
    ensures |sections| <= MAX_SECTIONS
  {
    hide Walked, Walk, SectionAt, NextPos;
    sections := [];
    var pos: int := 0;
    ghost var cap := MAX_SECTIONS;
    WalkStarts(data, cap);
    while pos >= 0 && pos + 8 <= |data| && |sections| < MAX_SECTIONS
      invariant |sections| <= cap == MAX_SECTIONS && Walked(data, sections, pos, cap)
      decreases cap - |sections|
    {
      var s, next := ReadSection(data, pos);
      WalkStep(data, sections, pos, cap);
      sections := sections + [s];
      pos := next;
    }
    WalkEnds(data, sections, pos, cap);
  }

  lemma WalkStarts(data: seq<byte>, cap: nat)
    ensures Walked(data, [], 0, cap)
  {
  }

  lemma WalkStep(data: seq<byte>, sections: seq<Section>, pos: int, cap: nat)
    requires Walked(data, sections, pos, cap) && |sections| < cap && HasHeader(data, pos)
    ensures Walked(data, sections + [SectionAt(data, pos)], NextPos(data, pos), cap)
  {
    var rest := Walk(data, NextPos(data, pos), cap - |sections| - 1);
    assert sections + ([SectionAt(data, pos)] + rest) == (sections + [SectionAt(data, pos)]) + rest;
  }

  lemma WalkEnds(data: seq<byte>, sections: seq<Section>, pos: int, cap: nat)
    requires Walked(data, sections, pos, cap) && (|sections| == cap || !HasHeader(data, pos))
    ensures sections == Walk(data, 0, cap)
  {
    assert Walk(data, pos, cap - |sections|) == [];
  }

  // ---------- any bytes ----------

  /** Every section found is a header inside the data followed by a contiguous slice of it. */
  lemma {:induction false} SectionsAreSlices(data: seq<byte>, pos: int, room: nat, i: nat)
    requires i < |Walk(data, pos, room)|
    ensures exists p :: HasHeader(data, p) && Walk(data, pos, room)[i] == SectionAt(data, p)
    decreases room
  {
    if i == 0 {
      assert HasHeader(data, pos);
    } else {
      SectionsAreSlices(data, NextPos(data, pos), room - 1, i - 1);
    }
  }

  /** The four bytes of the size field, read as a signed little-endian number. */
  function SizeField(data: seq<byte>, p: int): int
    requires HasHeader(data, p)
  {
    data[p + 4] as int + 0x100 * data[p + 5] as int + 0x1_0000 * data[p + 6] as int + 0x100_0000 * data[p + 7] as int
    - if data[p + 7] >= 0x80 then 0x1_0000_0000 else 0
  }

  /**
  What the header at `p` stands for: its body is as long as the size says or as the data allows, and
  a negative size means no body and a jump backwards.
  */
  ghost predicate ReadAt(data: seq<byte>, p: int, s: Section, next: int) {
    && HasHeader(data, p)
    && |s.name| == 4 && (forall i | 0 <= i < 4 :: s.name[i] as int == data[p + i])
    && var n := SizeField(data, p);
       if n < 0 then s.body == [] && next == p + 8 + n
       else if n < |data| - (p + 8) then s.body == data[p + 8..p + 8 + n] && next == p + 8 + n
       else s.body == data[p + 8..] && next == |data|
  }

  /** The headers at `ps` stand for `ss`, each leading to the next, up to a place without one or `room` of them. */
  ghost predicate Follows(data: seq<byte>, ps: seq<int>, ss: seq<Section>, room: nat) {
    && |ps| == |ss| + 1 && |ss| <= room
    && (forall i | 0 <= i < |ss| :: ReadAt(data, ps[i], ss[i], ps[i + 1]))
    && (|ss| < room ==> ps[|ss|] < 0 || ps[|ss|] + 8 > |data|)
  }

  lemma FourBytes(bs: seq<byte>)
    requires |bs| == 4
    ensures FromLe(bs) == bs[0] as int + 0x100 * bs[1] as int + 0x1_0000 * bs[2] as int + 0x100_0000 * bs[3] as int
  {
    assert FromLe(bs[3..]) == bs[3] + 256 * FromLe([]) by { assert bs[3..][1..] == []; }
    assert bs[2..][1..] == bs[3..] && bs[1..][1..] == bs[2..];
    assert FromLe(bs[2..]) == bs[2] + 256 * FromLe(bs[3..]);
    assert FromLe(bs[1..]) == bs[1] + 256 * FromLe(bs[2..]);
  }

  lemma ReadAtHeader(data: seq<byte>, p: int, s: Section, next: int)
    requires HasHeader(data, p)
    ensures ReadAt(data, p, s, next) <==> s == SectionAt(data, p) && next == NextPos(data, p)
  {
    var bs := data[p + 4..p + 8];
    FourBytes(bs);
    assert SizeAt(data, p) == SizeField(data, p);
    hide ToI32, FromLe, SizeField, SizeAt;
    if ReadAt(data, p, s, next) {
      assert s.name == Latin1(data[p..p + 4]);
    }
  }

  lemma NoHeaderNoSection(data: seq<byte>, ps: seq<int>, ss: seq<Section>, room: nat)
    requires Follows(data, ps, ss, room) && (room == 0 || !HasHeader(data, ps[0]))
    ensures ss == []
  {
    assert ss != [] ==> ReadAt(data, ps[0], ss[0], ps[0 + 1]);
  }

  lemma FollowsCons(data: seq<byte>, pos: int, s: Section, ps: seq<int>, ss: seq<Section>, room: nat)
    requires Follows(data, ps, ss, room) && ReadAt(data, pos, s, ps[0])
    ensures Follows(data, [pos] + ps, [s] + ss, room + 1)
  {
    hide ReadAt;
  }

  lemma FollowsRest(data: seq<byte>, ps: seq<int>, ss: seq<Section>, room: nat)
    requires Follows(data, ps, ss, room) && ss != []
    ensures Follows(data, ps[1..], ss[1..], room - 1)
  {
    hide ReadAt;
  }

  lemma {:induction false} WalkFollows(data: seq<byte>, pos: int, room: nat) returns (ps: seq<int>)
    ensures Follows(data, ps, Walk(data, pos, room), room) && ps[0] == pos
    decreases room
  {
    if room == 0 || !HasHeader(data, pos) {
      ps := [pos];
    } else {
      ReadAtHeader(data, pos, SectionAt(data, pos), NextPos(data, pos));
      hide ReadAt, SectionAt, NextPos, Follows;
      var rest := WalkFollows(data, NextPos(data, pos), room - 1);
      ps := [pos] + rest;
      FollowsCons(data, pos, SectionAt(data, pos), rest, Walk(data, NextPos(data, pos), room - 1), room - 1);
    }
  }

  lemma {:induction false} FollowedIsWalked(data: seq<byte>, ps: seq<int>, ss: seq<Section>, room: nat)
    requires Follows(data, ps, ss, room)
    ensures Walk(data, ps[0], room) == ss
    decreases room
  {
    hide ReadAt, SectionAt, NextPos;
    if room == 0 || !HasHeader(data, ps[0]) {
      NoHeaderNoSection(data, ps, ss, room);
    } else {
      assert ss != [];
      FollowsRest(data, ps, ss, room);
      ReadAtHeader(data, ps[0], ss[0], ps[1]);
      FollowedIsWalked(data, ps[1..], ss[1..], room - 1);
      assert ss == [ss[0]] + ss[1..];
    }
  }

  /** The walk from `pos`, header by header on the data, also where sizes are negative or too large. */
  lemma WalkExact(data: seq<byte>, pos: int, ss: seq<Section>, room: nat)
    ensures Walk(data, pos, room) == ss <==> exists ps :: Follows(data, ps, ss, room) && ps[0] == pos
  {
    var ps := WalkFollows(data, pos, room);
    hide ReadAt, Walk;
    forall ps | Follows(data, ps, ss, room) && ps[0] == pos ensures Walk(data, pos, room) == ss {
      FollowedIsWalked(data, ps, ss, room);
    }
  }

  // ---------- walks that never end ----------

  /** The position after `k` headers, staying put where there is no header. */
  function PosAt(data: seq<byte>, pos: int, k: nat): int
    decreases k, data
  {
    if k == 0 then pos
    else
      var p := PosAt(data, pos, k - 1);
      if HasHeader(data, p) then NextPos(data, p) else p
  }

  /** Some header is reached twice. */
  ghost predicate Loops(data: seq<byte>, pos: int) {
    exists i: nat, j: nat :: i < j && Repeats(data, pos, i, j)
  }

  ghost predicate Repeats(data: seq<byte>, pos: int, i: nat, j: nat) {
    HasHeader(data, PosAt(data, pos, j)) && PosAt(data, pos, i) == PosAt(data, pos, j)
  }

  lemma {:induction false} PosAtAdds(data: seq<byte>, pos: int, i: nat, k: nat)
    ensures PosAt(data, pos, i + k) == PosAt(data, PosAt(data, pos, i), k)
    decreases k
  {
    if k > 0 {
      PosAtAdds(data, pos, i, k - 1);
    }
  }

  lemma {:induction false} HeadersBefore(data: seq<byte>, pos: int, i: nat, k: nat)
    requires i <= k && HasHeader(data, PosAt(data, pos, k))
    ensures HasHeader(data, PosAt(data, pos, i))
    decreases k
  {
    if i < k {
      HeadersBefore(data, pos, i, k - 1);
    }
  }

  /** The walk fills its room exactly when the last header it needs is there. */
  lemma WalkFillsIff(data: seq<byte>, pos: int, room: nat)
    requires room > 0
    ensures |Walk(data, pos, room)| == room <==>
              HasHeader(data, pos) && |Walk(data, NextPos(data, pos), room - 1)| == room - 1
  {
    hide SectionAt, NextPos;
  }

  lemma {:induction false} FillsIffHeader(data: seq<byte>, pos: int, room: nat)
    ensures |Walk(data, pos, room)| == room <==> room == 0 || HasHeader(data, PosAt(data, pos, room - 1))
    decreases room
  {
    hide Walk, HasHeader, NextPos, SectionAt, PosAt;
    if room > 0 {
      WalkFillsIff(data, pos, room);
      if HasHeader(data, pos) {
        FillsIffHeader(data, NextPos(data, pos), room - 1);
        StepAt(data, pos);
        if room > 1 {
          PosAtAdds(data, pos, 1, room - 2);
        }
      } else if HasHeader(data, PosAt(data, pos, room - 1)) {
        HeadersBefore(data, pos, 0, room - 1);
        StartAt(data, pos);
      } else {
        StartAt(data, pos);
      }
    } else {
      WalkNowhere(data, pos);
    }
  }

  lemma StartAt(data: seq<byte>, pos: int)
    ensures PosAt(data, pos, 0) == pos
  {
  }

  lemma WalkNowhere(data: seq<byte>, pos: int)
    ensures Walk(data, pos, 0) == []
  {
  }

  /** Once a header is reached again, there is a header after any number of steps. */
  lemma {:induction false} LoopGoesOn(data: seq<byte>, pos: int, i: nat, j: nat, k: nat)
    requires i < j && Repeats(data, pos, i, j)
    ensures HasHeader(data, PosAt(data, pos, k))
    decreases k
  {
    hide HasHeader, PosAt;
    if k <= j {
      HeadersBefore(data, pos, k, j);
    } else {
      PosAtAdds(data, pos, j, k - j);
      PosAtAdds(data, pos, i, k - j);
      LoopGoesOn(data, pos, i, j, i + k - j);
    }
  }

  function UpTo(n: nat): (s: set<int>)
    ensures |s| == n && forall p :: p in s <==> 0 <= p < n
  {
    if n == 0 then {} else UpTo(n - 1) + {n - 1}
  }

  lemma Subset(a: set<int>, b: set<int>)
    requires a <= b
    ensures |a| <= |b|
  {
    assert b == a + (b - a);
  }

  function Reached(data: seq<byte>, pos: int, n: nat): set<int> {
    set k | 0 <= k < n :: PosAt(data, pos, k)
  }

  /** `n` positions are all different, or one of them is reached twice. */
  lemma {:induction false} DifferentOrRepeated(data: seq<byte>, pos: int, n: nat)
    requires n > 0 ==> HasHeader(data, PosAt(data, pos, n - 1))
    ensures Loops(data, pos) || |Reached(data, pos, n)| == n
    decreases n
  {
    hide HasHeader, PosAt;
    if n > 0 {
      if n > 1 {
        HeadersBefore(data, pos, n - 2, n - 1);
      }
      DifferentOrRepeated(data, pos, n - 1);
      var before, p := Reached(data, pos, n - 1), PosAt(data, pos, n - 1);
      assert Reached(data, pos, n) == before + {p};
      if p in before {
        var i :| 0 <= i < n - 1 && PosAt(data, pos, i) == p;
        assert Repeats(data, pos, i, n - 1);
      }
    }
  }

  /** With more headers than bytes, one is reached twice. */
  lemma ManyHeadersRepeat(data: seq<byte>, pos: int, n: nat)
    requires n > |data| && HasHeader(data, PosAt(data, pos, n - 1))
    ensures Loops(data, pos)
  {
    DifferentOrRepeated(data, pos, n);
    forall p | p in Reached(data, pos, n) ensures 0 <= p < |data| {
      var k :| 0 <= k < n && PosAt(data, pos, k) == p;
      HeadersBefore(data, pos, k, n - 1);
    }
    Subset(Reached(data, pos, n), UpTo(|data|));
  }

  predicate Fills(data: seq<byte>, pos: int, room: nat) {
    |Walk(data, pos, room)| == room
  }

  /** Only the cap stops the walk, whatever it is, exactly when some header is reached twice. */
  lemma NeverEndsIffLoops(data: seq<byte>, pos: int)
    ensures (forall room: nat :: Fills(data, pos, room)) <==> Loops(data, pos)
  {
    hide Walk, PosAt, HasHeader;
    if Loops(data, pos) {
      var i, j :| i < j && Repeats(data, pos, i, j);
      forall room: nat ensures Fills(data, pos, room) {
        FillsIffHeader(data, pos, room);
        if room > 0 {
          LoopGoesOn(data, pos, i, j, room - 1);
        }
      }
    } else {
      var n := |data| + 1;
      FillsIffHeader(data, pos, n);
      if Fills(data, pos, n) {
        ManyHeadersRepeat(data, pos, n);
      }
    }
  }

  /** A file shorter than the cap is reported with as many sections as the cap exactly when it loops. */
  lemma ShortFileHitsCapIffLoops(data: seq<byte>)
    requires |data| < MAX_SECTIONS
    ensures Fills(data, 0, MAX_SECTIONS) <==> Loops(data, 0)
  {
    hide Walk, PosAt;
    NeverEndsIffLoops(data, 0);
    FillsIffHeader(data, 0, MAX_SECTIONS);
    if Fills(data, 0, MAX_SECTIONS) {
      ManyHeadersRepeat(data, 0, MAX_SECTIONS);
    }
  }

  lemma StepAt(data: seq<byte>, pos: int)
    requires HasHeader(data, pos)
    ensures PosAt(data, pos, 0) == pos && PosAt(data, pos, 1) == NextPos(data, pos)
  {
  }

  /** An empty UNIT section of size -8: its header leads back to itself. */
  const SELF_LOOP: seq<byte> := [0x55, 0x4E, 0x49, 0x54, 0xF8, 0xFF, 0xFF, 0xFF]

  /** Eight bytes that are reported as 10,000 sections. */
  lemma SelfLoopHitsCap()
    ensures Loops(SELF_LOOP, 0) && Fills(SELF_LOOP, 0, MAX_SECTIONS)
  {
    var size := SELF_LOOP[4..8];
    var s1, s2, s3 := size[1..], size[1..][1..], size[1..][1..][1..];
    assert s1 == [0xFF, 0xFF, 0xFF] && s2 == [0xFF, 0xFF] && s3 == [0xFF] && s3[1..] == [];
    assert FromLe(s3) == 0xFF;
    assert FromLe(s2) == 0xFFFF;
    assert FromLe(s1) == 0xFF_FFFF;
    assert FromLe(size) == 0xFFFF_FFF8;
    assert HasHeader(SELF_LOOP, 0) && NextPos(SELF_LOOP, 0) == 0;
    StepAt(SELF_LOOP, 0);
    assert Repeats(SELF_LOOP, 0, 0, 1);
    ShortFileHitsCapIffLoops(SELF_LOOP);
  }

  // ---------- well-formed files ----------

  function NameBytes(name: string): seq<byte>
    requires IsName(name)
  {
    seq(4, i requires 0 <= i < 4 => name[i] as int)
  }

  predicate IsName(name: string) {
    |name| == 4 && forall i | 0 <= i < 4 :: name[i] as int < 256
  }

  predicate FitsSection(s: Section) {
    IsName(s.name) && |s.body| < 0x8000_0000
  }

  function EncodeSection(s: Section): seq<byte> {
    if !FitsSection(s) then [] else (NameBytes(s.name) + Le(|s.body|, 4)) + s.body
  }

  function EncodeSections(ss: seq<Section>): seq<byte> {
    EncodeMany(EncodeSection, ss)
  }

  predicate AllFit(ss: seq<Section>) {
    forall i | 0 <= i < |ss| :: FitsSection(ss[i])
  }

  lemma HeaderOfEncoded(data: seq<byte>, pos: nat, s: Section, rest: seq<byte>)
    requires pos <= |data| && FitsSection(s) && data[pos..] == EncodeSection(s) + rest
    ensures HasHeader(data, pos) && SectionAt(data, pos) == s
    ensures NextPos(data, pos) == pos + |EncodeSection(s)| && data[NextPos(data, pos)..] == rest
  {
    var e := EncodeSection(s);
    var d := data[pos..];
    Widths();
    FromLeOfLe(|s.body|, 4);
    assert d[..4] == NameBytes(s.name) && d[4..8] == Le(|s.body|, 4) && d[8..|e|] == s.body && d[|e|..] == rest;
    assert data[pos..pos + 4] == d[..4] && data[pos + 4..pos + 8] == d[4..8];
    assert data[pos + 8..pos + |e|] == d[8..|e|] && data[pos + |e|..] == d[|e|..];
    assert Latin1(NameBytes(s.name)) == s.name;
  }

  /** The walk returns the sections a file was made of, or the first `room` of them. */
  lemma {:induction false} WalkOfEncoded(data: seq<byte>, pos: nat, ss: seq<Section>, tail: seq<byte>, room: nat)
    requires pos <= |data| && AllFit(ss) && data[pos..] == EncodeSections(ss) + tail
    requires |ss| < room ==> |tail| < 8
    ensures Walk(data, pos, room) == if |ss| <= room then ss else ss[..room]
    decreases |ss|
  {
    hide EncodeSection, SectionAt, NextPos, FitsSection;
    if ss != [] && room > 0 {
      var rest := EncodeSections(ss[1..]) + tail;
      Assoc(EncodeSection(ss[0]), EncodeSections(ss[1..]), tail);
      HeaderOfEncoded(data, pos, ss[0], rest);
      WalkOfEncoded(data, NextPos(data, pos), ss[1..], tail, room - 1);
    } else if ss == [] {
      assert EncodeSections(ss) + tail == tail;
      assert |data| == pos + |data[pos..]|;
    }
  }

  lemma {:induction false} WalkPastEncoded(data: seq<byte>, pos: nat, ss: seq<Section>, rest: seq<byte>, room: nat)
    requires pos <= |data| && AllFit(ss) && data[pos..] == EncodeSections(ss) + rest && |ss| <= room
    ensures |rest| <= |data| && data[|data| - |rest|..] == rest
    ensures Walk(data, pos, room) == ss + Walk(data, |data| - |rest|, room - |ss|)
    decreases |ss|
  {
    hide EncodeSection, SectionAt, NextPos, FitsSection;
    if ss != [] {
      Assoc(EncodeSection(ss[0]), EncodeSections(ss[1..]), rest);
      HeaderOfEncoded(data, pos, ss[0], EncodeSections(ss[1..]) + rest);
      WalkPastEncoded(data, NextPos(data, pos), ss[1..], rest, room - 1);
      assert ss == [ss[0]] + ss[1..];
    } else {
      assert EncodeSections(ss) + rest == rest;
      assert |data| == pos + |data[pos..]|;
    }
  }

  lemma HeaderOfTruncated(data: seq<byte>, pos: nat, name: string, n: nat, body: seq<byte>)
    requires pos <= |data| && IsName(name) && |body| <= n < 0x8000_0000
    requires data[pos..] == (NameBytes(name) + Le(n, 4)) + body
    ensures HasHeader(data, pos) && SectionAt(data, pos) == Section(name, body) && NextPos(data, pos) == |data|
  {
    var d := data[pos..];
    Widths();
    FromLeOfLe(n, 4);
    assert d[..4] == NameBytes(name) && d[4..8] == Le(n, 4) && d[8..] == body;
    assert data[pos..pos + 4] == d[..4] && data[pos + 4..pos + 8] == d[4..8] && data[pos + 8..] == d[8..];
    assert Latin1(NameBytes(name)) == name;
  }

  /** A file cut off within a body: the sections before it, and one whose body is what is left. */
  lemma WalkOfTruncated(data: seq<byte>, pos: nat, ss: seq<Section>, name: string, n: nat, body: seq<byte>, room: nat)
    requires pos <= |data| && AllFit(ss) && IsName(name) && |body| <= n < 0x8000_0000 && |ss| < room
    requires data[pos..] == EncodeSections(ss) + ((NameBytes(name) + Le(n, 4)) + body)
    ensures Walk(data, pos, room) == ss + [Section(name, body)]
  {
    var rest := (NameBytes(name) + Le(n, 4)) + body;
    WalkPastEncoded(data, pos, ss, rest, room);
    var p := |data| - |rest|;
    HeaderOfTruncated(data, p, name, n, body);
    hide SectionAt, NextPos, NameBytes, EncodeSections;
    assert Walk(data, |data|, room - |ss| - 1) == [];
  }

  /** No header on the walk is negative or runs past the end of the data. */
  predicate Clean(data: seq<byte>, pos: int, room: nat)
    decreases room, data
  {
    room == 0 || !HasHeader(data, pos) ||
    (SizeAt(data, pos) >= 0 && pos + 8 + SizeAt(data, pos) <= |data| && Clean(data, NextPos(data, pos), room - 1))
  }

  lemma EncodedAtHeader(data: seq<byte>, pos: int)
    requires HasHeader(data, pos) && SizeAt(data, pos) >= 0 && pos + 8 + SizeAt(data, pos) <= |data|
    ensures FitsSection(SectionAt(data, pos)) && pos + 8 <= NextPos(data, pos) <= |data|
    ensures data[pos..NextPos(data, pos)] == EncodeSection(SectionAt(data, pos))
  {
    var s := SectionAt(data, pos);
    var size := FromLe(data[pos + 4..pos + 8]);
    Widths();
    LeOfFromLe(data[pos + 4..pos + 8]);
    assert |s.body| == size;
    assert NameBytes(s.name) == data[pos..pos + 4];
    var e := NextPos(data, pos);
    assert data[pos..e] == (data[pos..pos + 4] + data[pos + 4..pos + 8]) + data[pos + 8..e];
  }

  lemma JoinSlices(data: seq<byte>, pos: nat, next: nat, a: seq<byte>, b: seq<byte>)
    requires pos <= next <= |data| && data[pos..next] == a
    requires |b| <= |data| - next && data[next..] == b + data[next + |b|..]
    ensures |a + b| <= |data| - pos && data[pos..] == (a + b) + data[pos + |a + b|..]
  {
    assert data[pos..] == data[pos..next] + data[next..];
    assert pos + |a + b| == next + |b|;
    Assoc(a, b, data[next + |b|..]);
  }

  lemma EncodeSectionsCons(s: Section, ss: seq<Section>)
    ensures EncodeSections([s] + ss) == EncodeSection(s) + EncodeSections(ss)
  {
    assert ([s] + ss)[1..] == ss;
  }

  /** A clean file is the concatenation of the sections found and a tail too short for a header. */
  lemma {:induction false} CleanIsEncoded(data: seq<byte>, pos: nat, room: nat)
    requires pos <= |data| && Clean(data, pos, room)
    ensures var ss := Walk(data, pos, room);
            && AllFit(ss) && |EncodeSections(ss)| <= |data| - pos
            && data[pos..] == EncodeSections(ss) + data[pos + |EncodeSections(ss)|..]
            && (|ss| < room ==> |data| - pos - |EncodeSections(ss)| < 8)
    decreases room
  {
    if room > 0 && HasHeader(data, pos) {
      var s, next := SectionAt(data, pos), NextPos(data, pos);
      EncodedAtHeader(data, pos);
      hide EncodeSection, EncodeSections, SectionAt, FitsSection, NextPos, SizeAt, BodyEnd;
      CleanIsEncoded(data, next, room - 1);
      var ss := Walk(data, next, room - 1);
      EncodeSectionsCons(s, ss);
      JoinSlices(data, pos, next, EncodeSection(s), EncodeSections(ss));
      assert pos + |EncodeSections([s] + ss)| == next + |EncodeSections(ss)|;
      hide Clean;
      assert Walk(data, pos, room) == [s] + ss;
    } else {
      assert EncodeSections([]) == [];
      assert data[pos..] == [] + data[pos..];
    }
  }
}
