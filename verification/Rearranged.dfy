/** Positions in sequences that are rearrangements of one another. */
module Rearranged {

  lemma SubmultisetOfTwo<T>(s: seq<T>, p: nat, q: nat)
    requires p < q < |s|
    ensures multiset{s[p], s[q]} <= multiset(s)
  {
    assert s == s[..p] + [s[p]] + s[p + 1..q] + [s[q]] + s[q + 1..];
  }

  lemma {:induction false} TwoPositions<T>(s: seq<T>, x: T, y: T) returns (p: nat, q: nat)
    requires multiset{x, y} <= multiset(s)
    ensures p < |s| && q < |s| && p != q && s[p] == x && s[q] == y
  {
    p :| p < |s| && s[p] == x;
    var rest := s[..p] + s[p + 1..];
    assert s == s[..p] + [s[p]] + s[p + 1..];
    assert multiset(s) == multiset(rest) + multiset{x};
    assert y in multiset(rest);
    var k :| 0 <= k < |rest| && rest[k] == y;
    q := if k < p then k else k + 1;
  }
}
