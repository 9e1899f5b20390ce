/**
Assembly of duplicate sections and the canonical digest by which the app decides what a Map Agent
changed. SHA-256 is a parameter: two digests agree only on equal sections, or else the lemmas
return two different inputs with the same hash.
*/
module ChkDigest {
  import opened Bytes
  import opened ChkSections
  import opened Codecs
  import opened Wrappers
  import Utf8

  /** The hexadecimal SHA-256 of some bytes, 64 characters long. */
  type Hash = h: seq<byte> | |h| == 64 witness seq(64, _ => 48)

  const MAP_AGENT_MUTABLE_SECTIONS: set<string> :=
    {"MTXM", "TILE", "ISOM", "UNIT", "DD2 ", "THG2", "MRGN", "STR ", "STRx"}

  type Assembly = map<string, seq<byte>>

  datatype Digest = Digest(sections: map<string, Hash>, unsupported: map<string, Hash>, overall: Hash)

  // ---------- assembly ----------

  function Insert(m: Assembly, s: Section): Assembly {
    if s.name == "UNIT" && s.name in m then m[s.name := m[s.name] + s.body] else m[s.name := s.body]
  }

  function Assemble(ss: seq<Section>): Assembly {
    if ss == [] then map[] else Insert(Assemble(ss[..|ss| - 1]), ss[|ss| - 1])
  }

  /** `assemble_sections`. */
  method AssembleSections(sections: seq<Section>) returns (assembled: Assembly)
    ensures assembled == Assemble(sections)
  {
    assembled := map[];
    var i := 0;
    while i < |sections|
      invariant i <= |sections| && assembled == Assemble(sections[..i])
    {
      var s := sections[i];
      assert sections[..i + 1][..i] == sections[..i];
      if s.name == "UNIT" {
        var before := if s.name in assembled then assembled[s.name] else [];
        assert before + s.body == s.body || s.name in assembled;
        assembled := assembled[s.name := before + s.body];
      } else {
        assembled := assembled[s.name := s.body];
      }
      i := i + 1;
    }
    assert sections[..i] == sections;
  }

  /** The bodies of the sections called `name`, in file order. */
  function Bodies(ss: seq<Section>, name: string): seq<seq<byte>> {
    if ss == [] then []
    else Bodies(ss[..|ss| - 1], name) + if ss[|ss| - 1].name == name then [ss[|ss| - 1].body] else []
  }

  function Concat(bodies: seq<seq<byte>>): seq<byte> {
    if bodies == [] then [] else Concat(bodies[..|bodies| - 1]) + bodies[|bodies| - 1]
  }

  /** What one name is assembled to: all its bodies joined for UNIT, the last one otherwise. */
  function Joined(name: string, bodies: seq<seq<byte>>): seq<byte>
    requires bodies != []
  {
    if name == "UNIT" then Concat(bodies) else bodies[|bodies| - 1]
  }

  lemma {:induction false} AssembledByName(ss: seq<Section>, name: string)
    ensures name in Assemble(ss) <==> Bodies(ss, name) != []
    ensures name in Assemble(ss) ==> Assemble(ss)[name] == Joined(name, Bodies(ss, name))
  {
    if ss != [] {
      var prev, s := ss[..|ss| - 1], ss[|ss| - 1];
      AssembledByName(prev, name);
      if s.name == name {
        var bodies := Bodies(ss, name);
        assert bodies[..|bodies| - 1] == Bodies(prev, name);
        assert Bodies(prev, name) == [] ==> Concat(bodies[..0]) + s.body == s.body;
      } else {
        assert Bodies(ss, name) == Bodies(prev, name);
      }
    }
  }

  /** Of sections with one name other than UNIT, the last one in the file counts. */
  lemma {:induction false} LastOneCounts(ss: seq<Section>, i: nat)
    requires i < |ss| && ss[i].name != "UNIT" && forall j | i < j < |ss| :: ss[j].name != ss[i].name
    ensures ss[i].name in Assemble(ss) && Assemble(ss)[ss[i].name] == ss[i].body
  {
    if i < |ss| - 1 {
      LastOneCounts(ss[..|ss| - 1], i);
    }
  }

  function UnitBody(ss: seq<Section>): seq<byte> {
    if "UNIT" in Assemble(ss) then Assemble(ss)["UNIT"] else []
  }

  lemma OneMoreUnit(ss: seq<Section>, s: Section)
    ensures UnitBody(ss + [s]) == UnitBody(ss) + if s.name == "UNIT" then s.body else []
  {
    assert (ss + [s])[..|ss + [s]| - 1] == ss;
  }

  /** The UNIT bodies are joined in file order, and nothing else goes in between. */
  lemma {:induction false} UnitsJoin(ss: seq<Section>, tt: seq<Section>)
    ensures UnitBody(ss + tt) == UnitBody(ss) + UnitBody(tt)
  {
    hide UnitBody;
    if tt == [] {
      UnitAlone(Section("", []));
      assert ss + tt == ss;
    } else {
      var prev, s := tt[..|tt| - 1], tt[|tt| - 1];
      UnitsJoin(ss, prev);
      OneMoreUnit(prev, s);
      OneMoreUnit(ss + prev, s);
      assert prev + [s] == tt && (ss + prev) + [s] == ss + tt;
    }
  }

  lemma UnitAlone(s: Section)
    ensures UnitBody([]) == [] && UnitBody([s]) == if s.name == "UNIT" then s.body else []
  {
    assert [s][..0] == [];
  }

  /** Reordering sections changes nothing as long as same-named sections keep their order. */
  lemma {:induction false} AssemblyIgnoresOrder(ss: seq<Section>, tt: seq<Section>)
    requires forall name :: Bodies(ss, name) == Bodies(tt, name)
    ensures Assemble(ss) == Assemble(tt)
  {
    forall name
      ensures name in Assemble(ss) <==> name in Assemble(tt)
      ensures name in Assemble(ss) ==> Assemble(ss)[name] == Assemble(tt)[name]
    {
      AssembledByName(ss, name);
      AssembledByName(tt, name);
    }
  }

  // ---------- the order of a BTreeMap's keys ----------

  predicate Less(a: string, b: string)
    decreases |a|
  {
    b != "" && (a == "" || a[0] < b[0] || (a[0] == b[0] && Less(a[1..], b[1..])))
  }

  lemma {:induction false} LessTotal(a: string, b: string)
    ensures a != b ==> Less(a, b) || Less(b, a)
    ensures !(Less(a, b) && Less(b, a))
    decreases |a|
  {
    if a != "" && b != "" && a[0] == b[0] {
      assert a == [a[0]] + a[1..] && b == [b[0]] + b[1..];
      LessTotal(a[1..], b[1..]);
    }
  }

  lemma {:induction false} LessTransitive(a: string, b: string, c: string)
    requires Less(a, b) && Less(b, c)
    ensures Less(a, c)
    decreases |a|
  {
    if a != "" && a[0] == b[0] && b[0] == c[0] {
      LessTransitive(a[1..], b[1..], c[1..]);
    }
  }

  ghost predicate DifferAt(a: string, b: string, k: nat) {
    k <= |a| && k < |b| && a[..k] == b[..k] && (k == |a| || a[k] < b[k])
  }

  lemma SameStart(a: string, b: string, k: nat)
    requires DifferAt(a, b, k)
    ensures k == 0 || (a != "" && a[0] == b[0])
  {
    assert k == 0 || a[..k][0] == b[..k][0];
  }

  /** The order is by the first character that differs, and a prefix comes before what it begins. */
  lemma {:induction false} LessExact(a: string, b: string)
    ensures Less(a, b) <==> exists k: nat :: DifferAt(a, b, k)
    decreases |a|
  {
    if a == "" || b == "" || a[0] != b[0] {
      assert b != "" && (a == "" || a[0] < b[0]) ==> DifferAt(a, b, 0);
      forall k: nat | DifferAt(a, b, k) ensures Less(a, b) {
        SameStart(a, b, k);
      }
    } else {
      LessExact(a[1..], b[1..]);
      if Less(a, b) {
        var k: nat :| DifferAt(a[1..], b[1..], k);
        assert a[..k + 1] == [a[0]] + a[1..][..k] && b[..k + 1] == [b[0]] + b[1..][..k];
        assert DifferAt(a, b, k + 1);
      }
      forall k: nat | DifferAt(a, b, k) ensures Less(a, b) {
        assert k > 0;
        assert a[1..][..k - 1] == a[..k][1..] && b[1..][..k - 1] == b[..k][1..];
        assert DifferAt(a[1..], b[1..], k - 1);
      }
    }
  }

  predicate IsFirst(k: string, names: set<string>) {
    k in names && forall n | n in names :: n == k || Less(k, n)
  }

  lemma {:induction false} FirstExists(names: set<string>)
    requires names != {}
    ensures exists k :: IsFirst(k, names)
    decreases |names|
  {
    var n :| n in names;
    if names == {n} {
      assert IsFirst(n, names);
    } else {
      var rest := names - {n};
      assert rest != {};
      FirstExists(rest);
      var m :| IsFirst(m, rest);
      LessTotal(n, m);
      var k := if Less(n, m) then n else m;
      forall x | x in names ensures x == k || Less(k, x) {
        if x != n && x != m && k == n {
          LessTransitive(n, m, x);
        }
      }
      assert IsFirst(k, names);
    }
  }

  lemma FirstUnique(names: set<string>)
    ensures forall k, l :: IsFirst(k, names) && IsFirst(l, names) ==> k == l
  {
    forall k, l | IsFirst(k, names) && IsFirst(l, names) ensures k == l {
      LessTotal(k, l);
    }
  }

  function First(names: set<string>): (k: string)
    requires names != {}
    ensures IsFirst(k, names)
  {
    FirstExists(names);
    FirstUnique(names);
    var k :| k in names && IsFirst(k, names);
    k
  }

  function Sorted(names: set<string>): (order: seq<string>)
    ensures forall n :: n in order <==> n in names
    decreases |names|
  {
    if names == {} then [] else var k := First(names); [k] + Sorted(names - {k})
  }

  /** Ascending and complete: the enumeration is the one and only order of the keys. */
  lemma {:induction false} SortedAscends(names: set<string>, i: nat, j: nat)
    requires i < j < |Sorted(names)|
    ensures Less(Sorted(names)[i], Sorted(names)[j])
    decreases |names|
  {
    var k := First(names);
    if i == 0 {
      assert Sorted(names)[j] in Sorted(names - {k});
    } else {
      SortedAscends(names - {k}, i - 1, j - 1);
    }
  }

  // ---------- the digest ----------

  function Hashes(sha: seq<byte> -> Hash, m: Assembly): map<string, Hash> {
    map name | name in m :: sha(m[name])
  }

  function Unsupported(hashes: map<string, Hash>): map<string, Hash> {
    hashes - MAP_AGENT_MUTABLE_SECTIONS
  }

  function EncodeNamed(e: (string, Hash)): seq<byte> {
    (Le(|Utf8.Encode(e.0)|, 4) + Utf8.Encode(e.0)) + e.1
  }

  function Named(hashes: map<string, Hash>): seq<(string, Hash)> {
    var order := Sorted(hashes.Keys);
    seq(|order|, i requires 0 <= i < |order| => (order[i], hashes[order[i]]))
  }

  /** The bytes the overall hash is taken of. */
  function Canonical(hashes: map<string, Hash>): seq<byte> {
    EncodeMany(EncodeNamed, Named(hashes))
  }

  function DigestOf(sha: seq<byte> -> Hash, m: Assembly): Digest {
    var hashes := Hashes(sha, m);
    Digest(hashes, Unsupported(hashes), sha(Canonical(hashes)))
  }

  function ChkAssembly(data: seq<byte>): Assembly {
    Assemble(Walk(data, 0, MAX_SECTIONS))
  }

  /** `canonical_chk_digest`. */
  method CanonicalChkDigest(sha: seq<byte> -> Hash, data: seq<byte>) returns (d: Digest)
    ensures d == DigestOf(sha, ChkAssembly(data))
  {
    var sections := WalkSections(data);
    var assembled := AssembleSections(sections);
    var hashes := Hashes(sha, assembled);
    var named := Named(hashes);
    var canonical: seq<byte> := [];
    hide EncodeNamed, Named, Hashes, Unsupported, Assemble;
    var i := 0;
    while i < |named|
      invariant i <= |named| && canonical == EncodeMany(EncodeNamed, named[..i])
    {
      EncodeManySnoc(EncodeNamed, named[..i], named[i]);
      assert named[..i + 1] == named[..i] + [named[i]];
      canonical := canonical + EncodeNamed(named[i]);
      i := i + 1;
    }
    assert named[..i] == named;
    d := Digest(hashes, Unsupported(hashes), sha(canonical));
  }

  /**
  The digest lists every section found by name, with the hash of what its bodies are assembled to, and
  separately those outside the sections a Map Agent may change.
  */
  lemma {:induction false} DigestLists(sha: seq<byte> -> Hash, sections: seq<Section>, name: string)
    ensures var d := DigestOf(sha, Assemble(sections));
            && (name in d.sections <==> exists i | 0 <= i < |sections| :: sections[i].name == name)
            && (name in d.sections ==> Bodies(sections, name) != []
                                       && d.sections[name] == sha(Joined(name, Bodies(sections, name))))
            && (name in d.unsupported <==>
                  name in d.sections
                  && name !in ["MTXM", "TILE", "ISOM", "UNIT", "DD2 ", "THG2", "MRGN", "STR ", "STRx"])
            && (name in d.unsupported ==> d.unsupported[name] == d.sections[name])
  {
    AssembledByName(sections, name);
    BodiesIff(sections, name);
    hide Canonical, Joined, Assemble;
  }

  lemma {:induction false} BodiesIff(ss: seq<Section>, name: string)
    ensures Bodies(ss, name) != [] <==> exists i | 0 <= i < |ss| :: ss[i].name == name
  {
    if ss != [] {
      BodiesIff(ss[..|ss| - 1], name);
      assert ss == ss[..|ss| - 1] + [ss[|ss| - 1]];
    }
  }

  // ---------- the canonical bytes determine the hashes ----------

  predicate FitsName(e: (string, Hash)) {
    |Utf8.Encode(e.0)| <= U32_MAX
  }

  function ParseNamed(s: seq<byte>): Option<((string, Hash), seq<byte>)> {
    if |s| < 4 then None
    else
      var n := FromLe(s[..4]);
      if |s| < 4 + n + 64 then None
      else
        match Utf8.Decode(s[4..4 + n])
        case None => None
        case Some(name) => Some(((name, s[4 + n..4 + n + 64]), s[4 + n + 64..]))
  }

  lemma NamedParses(s: seq<byte>, e: (string, Hash), rest: seq<byte>)
    requires FitsName(e) && s == EncodeNamed(e) + rest
    ensures ParseNamed(s) == Some((e, rest))
  {
    var u := Utf8.Encode(e.0);
    Widths();
    FromLeOfLe(|u|, 4);
    assert s[..4] == Le(|u|, 4) && s[4..4 + |u|] == u;
    assert s[4 + |u|..4 + |u| + 64] == e.1 && s[4 + |u| + 64..] == rest;
    Utf8.DecodeOfEncode(e.0);
  }

  lemma ParsedIsNamed(s: seq<byte>, e: (string, Hash), rest: seq<byte>)
    requires ParseNamed(s) == Some((e, rest))
    ensures FitsName(e) && s == EncodeNamed(e) + rest
  {
    hide Utf8.Decode, Utf8.Encode;
    var n := FromLe(s[..4]);
    Widths();
    LeOfFromLe(s[..4]);
    Utf8.EncodeOfDecode(s[4..4 + n], e.0);
    hide FromLe, Le, Pow256;
    ThreeParts(s, n);
    Assoc(s[..4] + s[4..4 + n], e.1, rest);
  }

  lemma ThreeParts(s: seq<byte>, n: nat)
    requires 4 + n + 64 <= |s|
    ensures s == ((s[..4] + s[4..4 + n]) + s[4 + n..4 + n + 64]) + s[4 + n + 64..]
  {
    var tail := s[4 + n..];
    Rejoin(s, 4, s[4..4 + n], tail);
    assert tail == s[4 + n..4 + n + 64] + s[4 + n + 64..];
    Assoc(s[..4] + s[4..4 + n], s[4 + n..4 + n + 64], s[4 + n + 64..]);
  }

  lemma NamedExact()
    ensures Exact(ParseNamed, EncodeNamed, FitsName)
  {
    forall s, e, rest ensures ExactAt(ParseNamed, EncodeNamed, FitsName, s, e, rest) {
      if ParseNamed(s) == Some((e, rest)) {
        ParsedIsNamed(s, e, rest);
      }
      if FitsName(e) && s == EncodeNamed(e) + rest {
        NamedParses(s, e, rest);
      }
    }
  }

  predicate FitsNames(hashes: map<string, Hash>) {
    forall n | n in hashes :: |Utf8.Encode(n)| <= U32_MAX
  }

  lemma CanonicalInjective(a: map<string, Hash>, b: map<string, Hash>)
    requires FitsNames(a) && FitsNames(b) && Canonical(a) == Canonical(b)
    ensures a == b
  {
    hide EncodeNamed, Utf8.Encode;
    NamedExact();
    EncodedNonEmpty();
    assert AllOk(FitsName, Named(a)) && AllOk(FitsName, Named(b));
    EncodeManyInjective(ParseNamed, EncodeNamed, FitsName, Named(a), Named(b));
    NamedIsMap(a);
    NamedIsMap(b);
    hide Named;
    forall n ensures n in a <==> n in b ensures n in a && n in b ==> a[n] == b[n] {
      assert n in a ==> (n, a[n]) in Named(b);
      assert n in b ==> (n, b[n]) in Named(a);
    }
  }

  lemma EncodedNonEmpty()
    ensures forall e: (string, Hash) | FitsName(e) :: EncodeNamed(e) != []
  {
  }

  lemma NamedIsMap(m: map<string, Hash>)
    ensures forall n, h :: n in m && m[n] == h <==> (n, h) in Named(m)
  {
    var order := Sorted(m.Keys);
    forall n, h ensures n in m && m[n] == h <==> (n, h) in Named(m) {
      if n in m && m[n] == h {
        assert n in order;
        var i :| 0 <= i < |order| && order[i] == n;
        assert Named(m)[i] == (n, h);
      }
    }
  }

  // ---------- what the digest tells ----------

  predicate Collides(sha: seq<byte> -> Hash, x: seq<byte>, y: seq<byte>) {
    x != y && sha(x) == sha(y)
  }

  predicate SameOn(a: Assembly, b: Assembly, name: string) {
    (name in a <==> name in b) && (name in a && name in b ==> a[name] == b[name])
  }

  lemma EqualHashes(sha: seq<byte> -> Hash, a: Assembly, b: Assembly) returns (x: seq<byte>, y: seq<byte>)
    requires Hashes(sha, a) == Hashes(sha, b)
    ensures a == b || Collides(sha, x, y)
  {
    x, y := [], [];
    if a != b {
      assert a.Keys == Hashes(sha, a).Keys == Hashes(sha, b).Keys == b.Keys;
      var name :| name in a && a[name] != b[name];
      assert Hashes(sha, a)[name] == Hashes(sha, b)[name];
      x, y := a[name], b[name];
    }
  }

  lemma {:induction false} WalkedNames(data: seq<byte>, pos: int, room: nat)
    ensures forall i | 0 <= i < |Walk(data, pos, room)| :: |Walk(data, pos, room)[i].name| == 4
    decreases room
  {
    if room > 0 && HasHeader(data, pos) {
      WalkedNames(data, NextPos(data, pos), room - 1);
    }
  }

  lemma {:induction false} AssembledNames(ss: seq<Section>)
    requires forall i | 0 <= i < |ss| :: |ss[i].name| == 4
    ensures forall n | n in Assemble(ss) :: |n| == 4
  {
    if ss != [] {
      AssembledNames(ss[..|ss| - 1]);
    }
  }

  lemma ShortNamesFit(m: map<string, Hash>)
    requires forall n | n in m :: |n| == 4
    ensures FitsNames(m)
  {
    forall n | n in m ensures |Utf8.Encode(n)| <= U32_MAX {
      assert Utf8.Encode(n[4..]) == [];
      assert n[1..][1..] == n[2..] && n[2..][1..] == n[3..] && n[3..][1..] == n[4..];
      hide Utf8.EncodeChar;
      assert |Utf8.Encode(n[3..])| <= 4;
      assert |Utf8.Encode(n[2..])| <= 8;
      assert |Utf8.Encode(n[1..])| <= 12;
    }
  }

  /** Equal overall digests of two files mean equal assembled sections, or a collision of the hash. */
  lemma EqualOverall(sha: seq<byte> -> Hash, data: seq<byte>, other: seq<byte>) returns (x: seq<byte>, y: seq<byte>)
    requires DigestOf(sha, ChkAssembly(data)).overall == DigestOf(sha, ChkAssembly(other)).overall
    ensures ChkAssembly(data) == ChkAssembly(other) || Collides(sha, x, y)
  {
    var a, b := ChkAssembly(data), ChkAssembly(other);
    var ha, hb := Hashes(sha, a), Hashes(sha, b);
    x, y := Canonical(ha), Canonical(hb);
    if x == y {
      WalkedNames(data, 0, MAX_SECTIONS);
      WalkedNames(other, 0, MAX_SECTIONS);
      AssembledNames(Walk(data, 0, MAX_SECTIONS));
      AssembledNames(Walk(other, 0, MAX_SECTIONS));
      ShortNamesFit(ha);
      ShortNamesFit(hb);
      CanonicalInjective(ha, hb);
      x, y := EqualHashes(sha, a, b);
    }
  }

  /** Equal unsupported hashes mean every section outside the mutable list is in both files, byte for byte. */
  lemma EqualUnsupported(sha: seq<byte> -> Hash, a: Assembly, b: Assembly, name: string)
    requires DigestOf(sha, a).unsupported == DigestOf(sha, b).unsupported
    requires name !in MAP_AGENT_MUTABLE_SECTIONS
    ensures SameOn(a, b, name) || (name in a && name in b && Collides(sha, a[name], b[name]))
  {
    var ua, ub := DigestOf(sha, a).unsupported, DigestOf(sha, b).unsupported;
    assert name in ua <==> name in a;
    assert name in ub <==> name in b;
    assert name in a ==> ua[name] == sha(a[name]);
    assert name in b ==> ub[name] == sha(b[name]);
  }

  /** And conversely: changes to mutable sections alone never show in the unsupported hashes. */
  lemma MutableChangesAreInvisible(sha: seq<byte> -> Hash, a: Assembly, b: Assembly)
    requires forall name | name !in MAP_AGENT_MUTABLE_SECTIONS :: SameOn(a, b, name)
    ensures DigestOf(sha, a).unsupported == DigestOf(sha, b).unsupported
  {
  }

  /** The digest of a file does not depend on the order of differently named sections. */
  lemma DigestIgnoresOrder(sha: seq<byte> -> Hash, ss: seq<Section>, tt: seq<Section>)
    requires forall name :: Bodies(ss, name) == Bodies(tt, name)
    ensures DigestOf(sha, Assemble(ss)) == DigestOf(sha, Assemble(tt))
  {
    AssemblyIgnoresOrder(ss, tt);
  }

  /** So two files made of the same sections, in an order that keeps same-named ones, have one digest. */
  lemma FileDigestIgnoresOrder(
      sha: seq<byte> -> Hash, data: seq<byte>, ss: seq<Section>, tail: seq<byte>,
      other: seq<byte>, tt: seq<Section>, otherTail: seq<byte>)
    requires AllFit(ss) && |ss| <= MAX_SECTIONS && |tail| < 8 && data == EncodeSections(ss) + tail
    requires AllFit(tt) && |tt| <= MAX_SECTIONS && |otherTail| < 8 && other == EncodeSections(tt) + otherTail
    requires forall name :: Bodies(ss, name) == Bodies(tt, name)
    ensures DigestOf(sha, ChkAssembly(data)) == DigestOf(sha, ChkAssembly(other))
  {
    hide Walk, EncodeSections, Assemble, Bodies, DigestOf;
    assert data[0..] == data && other[0..] == other;
    WalkOfEncoded(data, 0, ss, tail, MAX_SECTIONS);
    WalkOfEncoded(other, 0, tt, otherTail, MAX_SECTIONS);
    DigestIgnoresOrder(sha, ss, tt);
  }
}
