/** The cursor-based reader and the field-by-field writer of the RAG index. */
module RagIndexFile {
  import opened Bytes
  import opened Wrappers
  import opened Codecs
  import opened RagIndex
  import Utf8

  /** Sequential byte cursor over a buffer in memory. */
  class Cursor {
    const bytes: seq<byte>
    var pos: nat

    ghost predicate Valid()
      reads this
    {
      pos <= |bytes| <= USIZE_MAX
    }

    ghost function Rest(): seq<byte>
      reads this
      requires Valid()
    {
      bytes[pos..]
    }

    constructor (bytes: seq<byte>)
      requires |bytes| <= USIZE_MAX
      ensures Valid() && this.bytes == bytes && pos == 0
    {
      this.bytes := bytes;
      pos := 0;
    }

    method Take(n: nat) returns (r: Result<seq<byte>, IndexError>)
      requires Valid()
      modifies this`pos
      ensures Valid()
      ensures r == if old(pos) + n > USIZE_MAX then Err(ReadOverflow)
                   else if old(pos) + n > |bytes| then Err(Truncated(n, old(pos), |bytes| - old(pos)))
                   else Ok(bytes[old(pos)..old(pos) + n])
      ensures pos == if r.Ok? then old(pos) + n else old(pos)
      ensures r.Ok? <==> n <= |old(Rest())|
      ensures r.Ok? ==> r.value == old(Rest())[..n] && Rest() == old(Rest())[n..]
    {
      var end := pos + n;
      if end > USIZE_MAX {
        return Err(ReadOverflow);
      }
      if end > |bytes| {
        return Err(Truncated(n, pos, |bytes| - pos));
      }
      r := Ok(bytes[pos..end]);
      pos := end;
    }

    method TakeU32() returns (r: Result<u32, IndexError>)
      requires Valid()
      modifies this`pos
      ensures Valid()
      ensures r.Ok? <==> |old(Rest())| >= 4
      ensures r.Ok? ==> r.value == FromLe(old(Rest())[..4]) && Rest() == old(Rest())[4..]
    {
      var b := Take(4);
      if b.Err? {
        return Err(b.error);
      }
      Widths();
      LeOfFromLe(b.value);
      r := Ok(FromLe(b.value));
    }

    method TakeU64() returns (r: Result<u64, IndexError>)
      requires Valid()
      modifies this`pos
      ensures Valid()
      ensures r.Ok? <==> |old(Rest())| >= 8
      ensures r.Ok? ==> r.value == FromLe(old(Rest())[..8]) && Rest() == old(Rest())[8..]
    {
      var b := Take(8);
      if b.Err? {
        return Err(b.error);
      }
      Widths();
      LeOfFromLe(b.value);
      r := Ok(FromLe(b.value));
    }

    method TakeTier(v: Layout) returns (r: Result<Option<byte>, IndexError>)
      requires Valid()
      modifies this`pos
      ensures Valid()
      ensures match ParseTier(v, old(Rest()))
              case None => r.Err?
              case Some((tier, rest)) => r == Ok(tier) && Rest() == rest
    {
      if !v.tiered {
        return Ok(None);
      }
      var b := Take(1);
      if b.Err? {
        return Err(b.error);
      }
      r := Ok(Some(b.value[0]));
    }

    method TakeString() returns (r: Result<seq<byte>, IndexError>)
      requires Valid()
      modifies this`pos
      ensures Valid()
      ensures match ParseString(old(Rest()))
              case None => r.Err?
              case Some((t, rest)) => r == Ok(t) && Rest() == rest
    {
      ghost var s := Rest();
      var len := TakeU32();
      if len.Err? {
        return Err(len.error);
      }
      var n := len.value;
      var b := Take(n);
      if b.Err? {
        return Err(b.error);
      }
      assert b.value == s[4..4 + n];
      assert Rest() == s[4 + n..];
      if !Utf8.Valid(b.value) {
        return Err(NotUtf8);
      }
      r := b;
    }

    method TakeVector(dim: nat) returns (r: Result<seq<u32>, IndexError>)
      requires Valid()
      modifies this`pos
      ensures Valid()
      ensures match ParseVector(dim, old(Rest()))
              case None => r.Err?
              case Some((vector, rest)) => r == Ok(vector) && Rest() == rest
    {
      ghost var s := Rest();
      TooShortForVector(dim, s);
      var b := Take(dim * 4);
      if b.Err? {
        return Err(b.error);
      }
      var vector := DecodeFloats(b.value, dim, s);
      r := Ok(vector);
    }
  }

  lemma TooShortForVector(dim: nat, s: seq<byte>)
    ensures |s| < 4 * dim ==> ParseVector(dim, s).None?
  {
    if ParseVector(dim, s).Some? {
      var (vector, rest) := ParseVector(dim, s).value;
      VectorExact(dim, s, vector, rest);
      EncodeVectorLength(vector);
    }
  }

  /** The loop of `take_vector` over four-byte chunks; `s` is what follows in the file. */
  method DecodeFloats(raw: seq<byte>, n: nat, ghost s: seq<byte>) returns (vector: seq<u32>)
    requires |s| >= |raw| == 4 * n && s[..4 * n] == raw
    ensures Many(ParseFloat, s, n) == Some((vector, s[4 * n..]))
  {
    hide EncodeVector, FromLe;
    vector := [];
    NoFloats();
    var i := 0;
    while i < n
      invariant i <= n && |vector| == i
      invariant s[..4 * i] == EncodeVector(vector)
    {
      var chunk := raw[4 * i..4 * i + 4];
      OneMoreFloat(raw, s, vector, i);
      vector := vector + [FromLe(chunk)];
      i := i + 1;
    }
    assert s == s[..4 * n] + s[4 * n..];
    VectorExact(n, s, vector, s[4 * n..]);
  }

  lemma NoFloats()
    ensures EncodeVector([]) == []
  {
  }

  lemma OneMoreFloat(raw: seq<byte>, s: seq<byte>, vector: seq<u32>, i: nat)
    requires 4 * i + 4 <= |raw| <= |s| && s[..|raw|] == raw && s[..4 * i] == EncodeVector(vector)
    ensures var bits := FromLe(raw[4 * i..4 * i + 4]);
            bits < 0x1_0000_0000 && s[..4 * (i + 1)] == EncodeVector(vector + [bits])
  {
    var chunk := raw[4 * i..4 * i + 4];
    Widths();
    LeOfFromLe(chunk);
    EncodeManySnoc<u32>(EncodeFloat, vector, FromLe(chunk));
    assert chunk == s[4 * i..4 * i + 4];
    assert s[..4 * (i + 1)] == s[..4 * i] + chunk;
  }

  method ReadEntry(cur: Cursor, v: Layout) returns (r: Result<Entry, IndexError>)
    requires cur.Valid()
    modifies cur`pos
    ensures cur.Valid()
    ensures match ParseEntry(v, old(cur.Rest()))
            case None => r.Err?
            case Some((e, rest)) => r == Ok(e) && cur.Rest() == rest
  {
    var id := cur.TakeU64();
    if id.Err? { return Err(id.error); }
    var vector := cur.TakeVector(v.dim);
    if vector.Err? { return Err(vector.error); }
    var tier := cur.TakeTier(v);
    if tier.Err? { return Err(tier.error); }
    var text := cur.TakeString();
    if text.Err? { return Err(text.error); }
    var source := cur.TakeString();
    if source.Err? { return Err(source.error); }
    r := Ok(Entry(id.value, vector.value, tier.value, text.value, source.value));
  }

  method ReadHeader(cur: Cursor, v: Layout) returns (r: Result<u32, IndexError>)
    requires cur.Valid() && cur.pos == 0
    modifies cur`pos
    ensures cur.Valid()
    ensures r.Ok? <==> |cur.bytes| >= 12 && cur.bytes[..4] == INDEX_MAGIC && FromLe(cur.bytes[4..8]) == v.version
    ensures r.Ok? ==> r.value == FromLe(cur.bytes[8..12]) && cur.Rest() == cur.bytes[12..]
    ensures |cur.bytes| >= 4 && cur.bytes[..4] != INDEX_MAGIC ==> r == Err(BadMagic(cur.bytes[..4]))
    ensures |cur.bytes| >= 8 && cur.bytes[..4] == INDEX_MAGIC && FromLe(cur.bytes[4..8]) != v.version
            ==> r == Err(BadVersion(FromLe(cur.bytes[4..8])))
  {
    var magic := cur.Take(4);
    if magic.Err? { return Err(magic.error); }
    if magic.value != INDEX_MAGIC { return Err(BadMagic(magic.value)); }
    var version := cur.TakeU32();
    if version.Err? { return Err(version.error); }
    assert cur.bytes[4..][..4] == cur.bytes[4..8];
    if version.value != v.version { return Err(BadVersion(version.value)); }
    assert cur.Rest() == cur.bytes[8..];
    assert |cur.bytes| >= 12 ==> cur.bytes[8..][..4] == cur.bytes[8..12];
    r := cur.TakeU32();
    assert r.Ok? ==> cur.Rest() == cur.bytes[12..];
  }

  method ReadEntries(cur: Cursor, v: Layout, count: nat) returns (r: Result<seq<Entry>, IndexError>)
    requires cur.Valid()
    modifies cur`pos
    ensures cur.Valid()
    ensures match Many(EntryParser(v), old(cur.Rest()), count)
            case None => r.Err?
            case Some((es, _)) => r == Ok(es)
  {
    hide ParseEntry;
    ghost var p := EntryParser(v);
    ghost var goal := Outcome(p, [], cur.Rest(), count);
    OutcomeEnds(p, [], cur.Rest(), count);
    var entries := [];
    var i := 0;
    while i < count
      invariant i <= count && cur.Valid()
      invariant goal == Outcome(p, entries, cur.Rest(), count - i)
    {
      OutcomeStep(p, entries, cur.Rest(), count - i);
      var e := ReadEntry(cur, v);
      if e.Err? { return Err(e.error); }
      entries := entries + [e.value];
      i := i + 1;
    }
    OutcomeEnds(p, entries, cur.Rest(), 0);
    r := Ok(entries);
  }

  /** `read_v1_index` and `read_v2_index`, which differ in the version and the tier byte only. */
  method ReadIndex(v: Layout, bytes: seq<byte>) returns (r: Result<seq<Entry>, IndexError>)
    requires |bytes| <= USIZE_MAX
    ensures match ParseIndex(v, bytes)
            case None => r.Err?
            case Some(es) => r == Ok(es)
    ensures |bytes| >= 4 && bytes[..4] != INDEX_MAGIC ==> r == Err(BadMagic(bytes[..4]))
    ensures |bytes| >= 8 && bytes[..4] == INDEX_MAGIC && FromLe(bytes[4..8]) != v.version
            ==> r == Err(BadVersion(FromLe(bytes[4..8])))
  {
    var cur := new Cursor(bytes);
    var count := ReadHeader(cur, v);
    if count.Err? { return Err(count.error); }
    r := ReadEntries(cur, v, count.value);
  }
}
