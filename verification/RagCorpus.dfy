/** Overlapping chunks of a text: nothing is lost, and how many there are. */
module RagCorpus {
  const CHUNK_CHARS: nat := 2000
  const CHUNK_OVERLAP: nat := 200

  // ---------- chunking, for any chunk size above any overlap ----------

  /** Pieces of `size` characters, each starting `size - overlap` after the previous one, until one reaches the end. */
  function Chunks(s: string, size: nat, overlap: nat): (chunks: seq<string>)
    requires overlap < size
    ensures chunks != []
    decreases |s|
  {
    if |s| <= size then [s] else [s[..size]] + Chunks(s[size - overlap..], size, overlap)
  }

  /** `chunk_text`. */
  method ChunkText(text: string, size: nat, overlap: nat) returns (chunks: seq<string>)
    requires overlap < size
    ensures chunks == Chunks(text, size, overlap)
  {
    if |text| <= size {
      return [text];
    }
    var step := size - overlap;
    chunks := [];
    var start := 0;
    while start < |text|
      invariant start < |text|
      invariant Chunks(text, size, overlap) == chunks + Chunks(text[start..], size, overlap)
      decreases |text| - start
    {
      var end := if start + size < |text| then start + size else |text|;
      ChunksAfter(text, start, end, chunks, size, overlap);
      chunks := chunks + [text[start..end]];
      if end == |text| {
        break;
      }
      start := start + step;
    }
  }

  lemma ChunksAfter(text: string, start: nat, end: nat, done: seq<string>, size: nat, overlap: nat)
    requires overlap < size && start < |text| && end == (if start + size < |text| then start + size else |text|)
    ensures done + Chunks(text[start..], size, overlap) ==
            if end == |text| then done + [text[start..end]]
            else (done + [text[start..end]]) + Chunks(text[start + size - overlap..], size, overlap)
  {
    var rest := text[start..];
    assert text[start..end] == rest[..end - start];
    if end == |text| {
      assert rest[..end - start] == rest;
    } else {
      assert rest[size - overlap..] == text[start + size - overlap..];
    }
  }

  // ---------- what chunking guarantees ----------

  predicate CoverOverlap(chunks: seq<string>, overlap: nat) {
    forall i | 0 <= i < |chunks| :: overlap <= |chunks[i]|
  }

  function WithoutOverlap(chunks: seq<string>, overlap: nat): string
    requires CoverOverlap(chunks, overlap)
  {
    if chunks == [] then "" else chunks[0][overlap..] + WithoutOverlap(chunks[1..], overlap)
  }

  /** Only the last chunk is short, and every later chunk adds at least one new character. */
  lemma {:induction false} ChunkSizes(s: string, size: nat, overlap: nat)
    requires overlap < size
    ensures var chunks := Chunks(s, size, overlap);
            && (forall i | 0 <= i < |chunks| - 1 :: |chunks[i]| == size)
            && |chunks[|chunks| - 1]| <= size
            && (forall i | 1 <= i < |chunks| :: overlap < |chunks[i]|)
    decreases |s|
  {
    if |s| > size {
      var rest := s[size - overlap..];
      ChunkSizes(rest, size, overlap);
      FirstChunk(rest, size, overlap);
    }
  }

  lemma FirstChunk(s: string, size: nat, overlap: nat)
    requires overlap < size
    ensures Chunks(s, size, overlap)[0] == if |s| <= size then s else s[..size]
  {
  }

  /** Consecutive chunks share exactly the last `overlap` characters of the earlier one. */
  lemma {:induction false} ChunksOverlap(s: string, size: nat, overlap: nat, i: nat)
    requires overlap < size && i + 1 < |Chunks(s, size, overlap)|
    ensures var chunks := Chunks(s, size, overlap);
            && |chunks[i]| == size && overlap < |chunks[i + 1]|
            && chunks[i][size - overlap..] == chunks[i + 1][..overlap]
    decreases |s|
  {
    ChunkSizes(s, size, overlap);
    var rest := s[size - overlap..];
    if i == 0 {
      FirstChunk(rest, size, overlap);
      assert Chunks(s, size, overlap)[1] == Chunks(rest, size, overlap)[0];
      assert s[..size][size - overlap..] == rest[..overlap];
    } else {
      ChunksOverlap(rest, size, overlap, i - 1);
    }
  }

  lemma {:induction false} LaterChunks(s: string, size: nat, overlap: nat)
    requires overlap < size && overlap <= |s|
    ensures CoverOverlap(Chunks(s, size, overlap), overlap)
    ensures WithoutOverlap(Chunks(s, size, overlap), overlap) == s[overlap..]
    decreases |s|
  {
    var chunks := Chunks(s, size, overlap);
    if |s| <= size {
      assert chunks[1..] == [];
    } else {
      var rest := s[size - overlap..];
      LaterChunks(rest, size, overlap);
      assert chunks[1..] == Chunks(rest, size, overlap);
      assert s[overlap..] == s[..size][overlap..] + rest[overlap..];
    }
  }

  /** Chunking loses nothing: the first chunk and the new part of every later one are the text. */
  lemma {:induction false} ChunksReassemble(s: string, size: nat, overlap: nat)
    requires overlap < size
    ensures var chunks := Chunks(s, size, overlap);
            && CoverOverlap(chunks[1..], overlap)
            && chunks[0] + WithoutOverlap(chunks[1..], overlap) == s
  {
    if |s| > size {
      var rest := s[size - overlap..];
      LaterChunks(rest, size, overlap);
      assert Chunks(s, size, overlap)[1..] == Chunks(rest, size, overlap);
      assert s == s[..size] + rest[overlap..];
    }
  }

  /** The number of chunks is the ceiling of (n - overlap) / (size - overlap) above the overlap, and 1 below. */
  lemma {:induction false} ChunkCount(s: string, size: nat, overlap: nat)
    requires overlap < size
    ensures var n, step := |Chunks(s, size, overlap)|, size - overlap;
            if |s| <= size then n == 1 else (n - 1) * step < |s| - overlap <= n * step
    decreases |s|
  {
    if |s| > size {
      var step := size - overlap;
      var m := |Chunks(s[step..], size, overlap)|;
      ChunkCount(s[step..], size, overlap);
      assert |Chunks(s, size, overlap)| == m + 1;
      assert (m + 1) * step == m * step + step;
      assert m > 1 ==> (m - 1) * step == m * step - step;
    }
  }

  lemma ProductionChunkCount(s: string)
    requires |s| > CHUNK_CHARS
    ensures |Chunks(s, CHUNK_CHARS, CHUNK_OVERLAP)| == (|s| - 200 + 1799) / 1800
  {
  }
}
