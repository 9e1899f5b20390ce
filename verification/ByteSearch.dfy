/** Greedy search for a byte string, and overwriting part of each match in place. */
module ByteSearch {
  import opened Bytes
  import opened Wrappers

  predicate OccursAt(h: seq<byte>, needle: seq<byte>, i: int) {
    0 <= i <= i + |needle| <= |h| && h[i..i + |needle|] == needle
  }

  ghost predicate Free(h: seq<byte>, needle: seq<byte>, from: int, to: int) {
    forall j | from <= j < to :: !OccursAt(h, needle, j)
  }

  ghost function Occurrences(h: seq<byte>, needle: seq<byte>): set<int> {
    set i | 0 <= i <= |h| && OccursAt(h, needle, i)
  }

  /** No proper prefix is also a suffix, so that two occurrences never overlap. */
  ghost predicate NoBorder(needle: seq<byte>) {
    forall b | 0 < b < |needle| :: needle[..b] != needle[|needle| - b..]
  }

  /** Where the search goes on after its first `k` matches. */
  function Resume(needle: seq<byte>, matches: seq<nat>, k: nat): nat
    requires k <= |matches|
  {
    if k == 0 then 0 else matches[k - 1] + |needle|
  }

  /** The `k`-th match is the first occurrence after the match before it. */
  ghost predicate MatchAt(h: seq<byte>, needle: seq<byte>, matches: seq<nat>, k: nat)
    requires k < |matches|
  {
    && OccursAt(h, needle, matches[k])
    && Resume(needle, matches, k) <= matches[k]
    && Free(h, needle, Resume(needle, matches, k), matches[k])
  }

  /** Up to `limit` matches from left to right; fewer only if no occurrence is left after them. */
  ghost predicate IsGreedy(h: seq<byte>, needle: seq<byte>, limit: nat, matches: seq<nat>) {
    && |matches| <= limit
    && (forall k | 0 <= k < |matches| :: MatchAt(h, needle, matches, k))
    && (|matches| < limit ==> Free(h, needle, Resume(needle, matches, |matches|), |h|))
  }

  // ---------- find_all ----------

  /** The first window of `h[from..]` equal to the needle. */
  method FirstWindow(h: seq<byte>, needle: seq<byte>, from: nat) returns (found: Option<nat>)
    requires needle != [] && from <= |h|
    ensures found.Some? ==> from <= found.value && OccursAt(h, needle, found.value) && Free(h, needle, from, found.value)
    ensures found.None? ==> Free(h, needle, from, |h|)
  {
    var i := from;
    while i + |needle| <= |h|
      invariant from <= i <= |h| && Free(h, needle, from, i)
      decreases |h| - i
    {
      if h[i..i + |needle|] == needle {
        return Some(i);
      }
      i := i + 1;
    }
    found := None;
  }

  /** `find_all`. A window length of zero is refused by the library it uses. */
  method FindAll(haystack: seq<byte>, needle: seq<byte>, limit: nat) returns (matches: seq<nat>)
    requires needle != []
    ensures IsGreedy(haystack, needle, limit, matches)
  {
    matches := [];
    var offset := 0;
    while offset + |needle| <= |haystack| && |matches| < limit
      invariant |matches| <= limit && offset == Resume(needle, matches, |matches|) <= |haystack|
      invariant IsGreedy(haystack, needle, |matches|, matches)
      decreases |haystack| - offset
    {
      var found := FirstWindow(haystack, needle, offset);
      match found {
        case None =>
          return;
        case Some(at) =>
          PushGreedy(haystack, needle, matches, at);
          matches := matches + [at];
          offset := at + |needle|;
      }
    }
  }

  lemma PushGreedy(h: seq<byte>, needle: seq<byte>, matches: seq<nat>, at: nat)
    requires IsGreedy(h, needle, |matches|, matches)
    requires OccursAt(h, needle, at) && Resume(needle, matches, |matches|) <= at
    requires Free(h, needle, Resume(needle, matches, |matches|), at)
    ensures IsGreedy(h, needle, |matches| + 1, matches + [at])
  {
    hide OccursAt, Free;
    var longer := matches + [at];
    forall k | 0 <= k < |longer| ensures MatchAt(h, needle, longer, k) {
      if k < |matches| {
        assert MatchAt(h, needle, matches, k);
        assert Resume(needle, longer, k) == Resume(needle, matches, k);
      }
    }
  }

  lemma {:induction false} AgreeUpTo(h: seq<byte>, needle: seq<byte>, limit: nat, a: seq<nat>, b: seq<nat>, k: nat)
    requires IsGreedy(h, needle, limit, a) && IsGreedy(h, needle, limit, b)
    requires k <= |a| <= |b|
    ensures a[..k] == b[..k]
  {
    hide OccursAt;
    if k > 0 {
      AgreeUpTo(h, needle, limit, a, b, k - 1);
      assert MatchAt(h, needle, a, k - 1) && MatchAt(h, needle, b, k - 1);
      assert k > 1 ==> a[k - 2] == a[..k - 1][k - 2] == b[k - 2];
      assert Resume(needle, a, k - 1) == Resume(needle, b, k - 1);
      assert a[k - 1] == b[k - 1];
      assert a[..k] == a[..k - 1] + [a[k - 1]];
    }
  }

  /** The greedy answer is unique: there is one list that `FindAll` may return. */
  lemma GreedyIsUnique(h: seq<byte>, needle: seq<byte>, limit: nat, a: seq<nat>, b: seq<nat>)
    requires needle != [] && IsGreedy(h, needle, limit, a) && IsGreedy(h, needle, limit, b)
    ensures a == b
  {
    if |a| <= |b| {
      AgreeUpTo(h, needle, limit, a, b, |a|);
      NoShorterAnswer(h, needle, limit, a, b);
    } else {
      NoShorterAnswer(h, needle, limit, b, a);
    }
  }

  lemma NotFreeAfterPrefix(h: seq<byte>, needle: seq<byte>, limit: nat, a: seq<nat>, b: seq<nat>)
    requires needle != [] && IsGreedy(h, needle, limit, b)
    requires |a| < |b| && a == b[..|a|]
    ensures !Free(h, needle, Resume(needle, a, |a|), |h|)
  {
    assert MatchAt(h, needle, b, |a|);
    assert Resume(needle, a, |a|) == Resume(needle, b, |a|);
    OccurrenceInBounds(h, needle, b[|a|]);
  }

  lemma NoShorterAnswer(h: seq<byte>, needle: seq<byte>, limit: nat, a: seq<nat>, b: seq<nat>)
    requires needle != [] && IsGreedy(h, needle, limit, a) && IsGreedy(h, needle, limit, b)
    requires |a| <= |b|
    ensures |a| == |b|
  {
    hide Free, Resume;
    AgreeUpTo(h, needle, limit, a, b, |a|);
    if |a| < |b| {
      NotFreeAfterPrefix(h, needle, limit, a, b);
    }
  }

  lemma {:induction false} Spaced(h: seq<byte>, needle: seq<byte>, limit: nat, matches: seq<nat>, i: nat, j: nat)
    requires IsGreedy(h, needle, limit, matches)
    requires i < j < |matches|
    ensures matches[i] + |needle| <= matches[j]
  {
    assert MatchAt(h, needle, matches, j);
    if i < j - 1 {
      Spaced(h, needle, limit, matches, i, j - 1);
    }
  }

  lemma OverlapIsBorder(h: seq<byte>, needle: seq<byte>, i: nat, j: nat)
    requires OccursAt(h, needle, i) && OccursAt(h, needle, j)
    requires i < j < i + |needle|
    ensures !NoBorder(needle)
  {
    var b := i + |needle| - j;
    assert needle[..b] == h[j..j + |needle|][..b] == h[j..i + |needle|];
    assert needle[|needle| - b..] == h[i..i + |needle|][|needle| - b..] == h[j..i + |needle|];
  }

  lemma {:induction false} FoundBefore(h: seq<byte>, needle: seq<byte>, limit: nat, matches: seq<nat>, k: nat, j: int)
    requires NoBorder(needle) && IsGreedy(h, needle, limit, matches)
    requires k <= |matches| && OccursAt(h, needle, j) && j < Resume(needle, matches, k)
    ensures j in matches
  {
    assert k > 0;
    hide OccursAt, NoBorder;
    assert MatchAt(h, needle, matches, k - 1);
    if j < Resume(needle, matches, k - 1) {
      FoundBefore(h, needle, limit, matches, k - 1, j);
    } else if matches[k - 1] < j {
      OverlapIsBorder(h, needle, matches[k - 1], j);
    } else {
      assert j == matches[k - 1];
    }
  }

  lemma {:induction false} DistinctCount(matches: seq<nat>)
    requires forall i, j | 0 <= i < j < |matches| :: matches[i] < matches[j]
    ensures |set m: int | m in matches| == |matches|
  {
    if matches == [] {
      assert (set m: int | m in matches) == {};
    } else {
      var last := matches[|matches| - 1];
      var rest := matches[..|matches| - 1];
      DistinctCount(rest);
      assert (set m: int | m in matches) == (set m: int | m in rest) + {last};
    }
  }

  lemma SubsetSizes(a: set<int>, b: set<int>)
    requires a <= b
    ensures |b| == |a| + |b - a|
    ensures |b| <= |a| ==> a == b
  {
  }

  /** For a needle without borders the matches are all occurrences exactly when there are at most `limit`. */
  lemma AllFoundIff(h: seq<byte>, needle: seq<byte>, limit: nat, matches: seq<nat>)
    requires needle != [] && NoBorder(needle) && IsGreedy(h, needle, limit, matches)
    ensures |set m: int | m in matches| == |matches|
    ensures (set m: int | m in matches) <= Occurrences(h, needle)
    ensures (set m: int | m in matches) == Occurrences(h, needle) <==> |Occurrences(h, needle)| <= limit
  {
    hide OccursAt, NoBorder;
    var found := set m: int | m in matches;
    forall i, j | 0 <= i < j < |matches| ensures matches[i] < matches[j] {
      Spaced(h, needle, limit, matches, i, j);
    }
    DistinctCount(matches);
    forall m | m in found ensures m in Occurrences(h, needle) {
      MatchOccurs(h, needle, limit, matches, m);
      OccurrenceInBounds(h, needle, m);
    }
    SubsetSizes(found, Occurrences(h, needle));
    if |matches| < limit {
      forall j | j in Occurrences(h, needle) ensures j in found {
        OccurrenceInBounds(h, needle, j);
        assert j < Resume(needle, matches, |matches|);
        FoundBefore(h, needle, limit, matches, |matches|, j);
      }
      assert found == Occurrences(h, needle);
    }
  }

  lemma MatchOccurs(h: seq<byte>, needle: seq<byte>, limit: nat, matches: seq<nat>, m: nat)
    requires IsGreedy(h, needle, limit, matches) && m in matches
    ensures OccursAt(h, needle, m)
  {
    var k :| 0 <= k < |matches| && matches[k] == m;
    assert MatchAt(h, needle, matches, k);
  }

  lemma OccurrenceInBounds(h: seq<byte>, needle: seq<byte>, j: int)
    requires OccursAt(h, needle, j) && needle != []
    ensures 0 <= j < |h|
  {
  }

  lemma FirstByteOnlyFirst(needle: seq<byte>)
    requires needle != [] && needle[0] !in needle[1..]
    ensures NoBorder(needle)
  {
  }

  // ---------- overwriting the matches ----------

  /** Some match's slot, `length` bytes at `slot` bytes into it, covers index `i`. */
  ghost predicate InSlot(matches: seq<nat>, slot: nat, length: nat, i: int) {
    exists m | m in matches :: m + slot <= i < m + slot + length
  }

  /** `after` is `before` with every slot overwritten, and nothing else changed. */
  ghost predicate IsRewritten(before: seq<byte>, after: seq<byte>, slot: nat, replacement: seq<byte>, matches: seq<nat>) {
    && |after| == |before|
    && (forall m | m in matches ::
          m + slot + |replacement| <= |after| && after[m + slot..m + slot + |replacement|] == replacement)
    && (forall i | 0 <= i < |before| && !InSlot(matches, slot, |replacement|, i) :: after[i] == before[i])
  }

  /**
  The replacement cannot take part in an occurrence: its first byte is foreign to the needle, and the
  needle's first byte, which the needle holds only once, is foreign to the replacement.
  */
  predicate IsApt(needle: seq<byte>, slot: nat, replacement: seq<byte>) {
    && 0 < slot && replacement != [] && slot + |replacement| <= |needle|
    && replacement[0] !in needle
    && needle[0] !in replacement && needle[0] !in needle[1..]
  }

  /** An occurrence in the rewritten bytes touches no slot. */
  lemma TouchesNoSlot(after: seq<byte>, needle: seq<byte>, slot: nat, replacement: seq<byte>, m: nat, j: int)
    requires IsApt(needle, slot, replacement)
    requires m + slot + |replacement| <= |after| && after[m + slot..m + slot + |replacement|] == replacement
    requires OccursAt(after, needle, j)
    ensures j + |needle| <= m + slot || m + slot + |replacement| <= j
  {
  }

  lemma SameAway(before: seq<byte>, after: seq<byte>, needle: seq<byte>, slot: nat, replacement: seq<byte>,
                 matches: seq<nat>, j: int)
    requires IsRewritten(before, after, slot, replacement, matches)
    requires 0 <= j <= j + |needle| <= |before|
    requires forall m | m in matches :: j + |needle| <= m + slot || m + slot + |replacement| <= j
    ensures OccursAt(before, needle, j) == OccursAt(after, needle, j)
  {
  }

  lemma OldOccurrence(before: seq<byte>, after: seq<byte>, needle: seq<byte>, slot: nat, replacement: seq<byte>,
                      limit: nat, matches: seq<nat>, j: int)
    requires IsApt(needle, slot, replacement)
    requires IsGreedy(before, needle, limit, matches)
    requires IsRewritten(before, after, slot, replacement, matches)
    requires OccursAt(before, needle, j) && j !in matches
    ensures OccursAt(after, needle, j)
  {
    FirstByteOnlyFirst(needle);
    forall m | m in matches ensures j + |needle| <= m + slot || m + slot + |replacement| <= j {
      MatchOccurs(before, needle, limit, matches, m);
      if j < m < j + |needle| {
        OverlapIsBorder(before, needle, j, m);
      } else if m < j < m + |needle| {
        OverlapIsBorder(before, needle, m, j);
      }
    }
    SameAway(before, after, needle, slot, replacement, matches, j);
  }

  lemma NewOccurrence(before: seq<byte>, after: seq<byte>, needle: seq<byte>, slot: nat, replacement: seq<byte>,
                      matches: seq<nat>, j: int)
    requires IsApt(needle, slot, replacement)
    requires IsRewritten(before, after, slot, replacement, matches)
    requires OccursAt(after, needle, j)
    ensures OccursAt(before, needle, j) && j !in matches
  {
    forall m | m in matches ensures j + |needle| <= m + slot || m + slot + |replacement| <= j {
      TouchesNoSlot(after, needle, slot, replacement, m, j);
    }
    SameAway(before, after, needle, slot, replacement, matches, j);
  }

  /** Overwriting takes away exactly the matches: none of them survives and no new occurrence forms. */
  lemma RewriteRemovesExactly(before: seq<byte>, after: seq<byte>, needle: seq<byte>, slot: nat,
                              replacement: seq<byte>, limit: nat, matches: seq<nat>)
    requires IsApt(needle, slot, replacement)
    requires IsGreedy(before, needle, limit, matches)
    requires IsRewritten(before, after, slot, replacement, matches)
    ensures Occurrences(after, needle) == Occurrences(before, needle) - set m: int | m in matches
    ensures Occurrences(after, needle) == {} <==> |Occurrences(before, needle)| <= limit
  {
    forall j | j in Occurrences(after, needle)
      ensures j in Occurrences(before, needle) && j !in matches
    {
      NewOccurrence(before, after, needle, slot, replacement, matches, j);
    }
    forall j | j in Occurrences(before, needle) && j !in matches
      ensures j in Occurrences(after, needle)
    {
      OldOccurrence(before, after, needle, slot, replacement, limit, matches, j);
    }
    FirstByteOnlyFirst(needle);
    AllFoundIff(before, needle, limit, matches);
    var found := set m: int | m in matches;
    assert Occurrences(after, needle) == Occurrences(before, needle) - found;
    assert Occurrences(after, needle) == {} <==> Occurrences(before, needle) <= found;
  }
}
