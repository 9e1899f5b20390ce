/**
Isolating a test client: the game's single-instance object name is overwritten, inside the mapped
image of the suspended client, by one that ends in `E` and the process id in hexadecimal.
*/
module TraceInjector {
  import opened ByteSearch
  import opened Bytes
  import opened Wrappers

  const IMAGE_READ_CHUNK: nat := 64 * 1024
  const MAX_INSTANCE_NAME_MATCHES: nat := 4
  const INSTANCE_OBJECT_NAME := "Starcraft Check For Other Instances"
  const INSTANCE_OBJECT_SUFFIX := "Instances"
  const SUFFIX_OFFSET: nat := (|INSTANCE_OBJECT_NAME| - |INSTANCE_OBJECT_SUFFIX|) * 2

  const ERR_NOT_FOUND: nat := 15
  const ERR_NOT_WRITTEN: nat := 17

  // ---------- the two names ----------

  /** UTF-16LE of text in the basic plane. */
  function Wide(s: string): (bs: seq<byte>)
    ensures |bs| == 2 * |s|
  {
    seq(2 * |s|, k requires 0 <= k < 2 * |s| => Half(s[k / 2], k % 2))
  }

  /** The low or the high byte of a character. */
  function Half(c: char, high: nat): byte {
    if high == 0 then c as int % 256 else c as int / 256 % 256
  }

  lemma WideAt(s: string, i: nat)
    requires i < |s|
    ensures Wide(s)[2 * i] == Half(s[i], 0) && Wide(s)[2 * i + 1] == Half(s[i], 1)
  {
  }

  function Needle(): seq<byte> {
    Wide(INSTANCE_OBJECT_NAME) + [0, 0]
  }

  function HexDigit(d: nat): (c: char)
    requires d < 16
    ensures '0' <= c <= '9' || 'A' <= c <= 'F'
  {
    if d < 10 then '0' + d as char else 'A' + (d - 10) as char
  }

  /** `v` in `n` upper-case hexadecimal digits. */
  function Hex(v: nat, n: nat): (s: string)
    ensures |s| == n
    ensures forall i | 0 <= i < n :: '0' <= s[i] <= '9' || 'A' <= s[i] <= 'F'
    decreases n, v
  {
    if n == 0 then "" else Hex(v / 16, n - 1) + [HexDigit(v % 16)]
  }

  function Pow16(n: nat): (p: nat)
    ensures p > 0
  {
    if n == 0 then 1 else 16 * Pow16(n - 1)
  }

  function Suffix(pid: u32): string {
    "E" + Hex(pid, 8)
  }

  function Replacement(pid: u32): seq<byte> {
    Wide(Suffix(pid))
  }

  lemma {:induction false} HexInjective(v: nat, w: nat, n: nat)
    requires v < Pow16(n) && w < Pow16(n)
    requires Hex(v, n) == Hex(w, n)
    ensures v == w
  {
    if n > 0 {
      var a, b := Hex(v / 16, n - 1), Hex(w / 16, n - 1);
      assert Hex(v, n)[..n - 1] == a && Hex(w, n)[..n - 1] == b;
      assert Hex(v, n)[n - 1] == HexDigit(v % 16) && Hex(w, n)[n - 1] == HexDigit(w % 16);
      HexInjective(v / 16, w / 16, n - 1);
    }
  }

  lemma WideInjective(s: string, t: string)
    requires Wide(s) == Wide(t)
    requires forall i | 0 <= i < |s| :: s[i] as int < 256
    requires forall i | 0 <= i < |t| :: t[i] as int < 256
    ensures s == t
  {
    hide Wide;
    forall i | 0 <= i < |s| ensures s[i] == t[i] {
      WideAt(s, i);
      WideAt(t, i);
    }
  }

  /** Clients started under different process ids never share the object. */
  lemma RenamedApart(p: u32, q: u32)
    requires Replacement(p) == Replacement(q)
    ensures p == q
  {
    hide Hex;
    WideInjective(Suffix(p), Suffix(q));
    assert Suffix(p)[1..] == Hex(p, 8) && Suffix(q)[1..] == Hex(q, 8);
    EightDigits();
    HexInjective(p, q, 8);
  }

  lemma EightDigits()
    ensures Pow16(8) == 0x1_0000_0000
  {
  }

  lemma NameCharacters(i: nat)
    requires i < |INSTANCE_OBJECT_NAME|
    ensures INSTANCE_OBJECT_NAME[i] as int < 128 && INSTANCE_OBJECT_NAME[i] != 'E'
    ensures INSTANCE_OBJECT_NAME[i] == 'S' <==> i == 0
  {
  }

  lemma NeedleBytes(k: nat)
    requires k < |Needle()|
    ensures Needle()[k] != 'E' as int
    ensures Needle()[k] == 'S' as int <==> k == 0
    ensures k % 2 == 1 || k >= 2 * |INSTANCE_OBJECT_NAME| ==> Needle()[k] == 0
    ensures k % 2 == 0 && k < 2 * |INSTANCE_OBJECT_NAME| ==> Needle()[k] != 0
  {
    hide Wide;
    var i := k / 2;
    if i < |INSTANCE_OBJECT_NAME| {
      NameCharacters(i);
      WideAt(INSTANCE_OBJECT_NAME, i);
      assert k == 2 * i || k == 2 * i + 1;
    }
  }

  lemma ReplacementBytes(pid: u32, k: nat)
    requires k < |Replacement(pid)|
    ensures Replacement(pid)[k] != 'S' as int
    ensures k % 2 == 1 ==> Replacement(pid)[k] == 0
    ensures k == 0 ==> Replacement(pid)[k] == 'E' as int
  {
  }

  /** The concrete renaming fits the slot and can never recreate the old name. */
  lemma RenamingIsApt(pid: u32)
    ensures |Needle()| == 72 && SUFFIX_OFFSET == 52
    ensures |Replacement(pid)| == 2 * |INSTANCE_OBJECT_SUFFIX| == 18
    ensures IsApt(Needle(), SUFFIX_OFFSET, Replacement(pid))
  {
    hide Wide, Hex;
    assert |Needle()| == 72;
    NeedleBytes(0);
    ReplacementBytes(pid, 0);
    forall k | 0 <= k < |Needle()| ensures Needle()[k] != 'E' as int && (k > 0 ==> Needle()[k] != 'S' as int) {
      NeedleBytes(k);
    }
    forall k | 0 <= k < |Replacement(pid)| ensures Replacement(pid)[k] != 'S' as int {
      ReplacementBytes(pid, k);
    }
  }

  // ---------- the client's image ----------

  /** Reading goes chunk by chunk; of each chunk the first so many bytes are copied. */
  function IsCopied(copied: nat -> nat): nat -> bool {
    (i: nat) => i % IMAGE_READ_CHUNK < copied(i / IMAGE_READ_CHUNK)
  }

  /** What reading yields: bytes that are not copied stay zero. */
  function Visible(bytes: seq<byte>, readable: nat -> bool): seq<byte> {
    seq(|bytes|, i requires 0 <= i < |bytes| => if readable(i) then bytes[i] else 0)
  }

  /** The name with its last word replaced. */
  function NewName(pid: u32): seq<byte> {
    Wide(INSTANCE_OBJECT_NAME[..|INSTANCE_OBJECT_NAME| - |INSTANCE_OBJECT_SUFFIX|] + Suffix(pid)) + [0, 0]
  }

  lemma WideAppend(s: string, t: string)
    ensures Wide(s + t) == Wide(s) + Wide(t)
  {
  }

  /** What is written in a slot turns the old name into the new one. */
  lemma SlotRenames(pid: u32)
    ensures NewName(pid) == Needle()[..SUFFIX_OFFSET] + Replacement(pid) + [0, 0]
    ensures Needle() == Needle()[..SUFFIX_OFFSET] + Wide(INSTANCE_OBJECT_SUFFIX) + [0, 0]
  {
    hide Wide, Suffix;
    var stem := INSTANCE_OBJECT_NAME[..|INSTANCE_OBJECT_NAME| - |INSTANCE_OBJECT_SUFFIX|];
    WideAppend(stem, Suffix(pid));
    assert INSTANCE_OBJECT_NAME == stem + INSTANCE_OBJECT_SUFFIX;
    WideAppend(stem, INSTANCE_OBJECT_SUFFIX);
    assert Needle()[..SUFFIX_OFFSET] == Wide(stem);
  }

  lemma Spliced(before: seq<byte>, now: seq<byte>, next: seq<byte>, slot: nat, r: seq<byte>, done: seq<nat>, at: nat)
    requires IsRewritten(before, now, slot, r, done)
    requires forall m | m in done :: m + |r| <= at
    requires at + slot + |r| <= |now|
    requires next == now[..at + slot] + r + now[at + slot + |r|..]
    ensures IsRewritten(before, next, slot, r, done + [at])
  {
    forall m | m in done ensures next[m + slot..m + slot + |r|] == r {
      assert next[m + slot..m + slot + |r|] == now[m + slot..m + slot + |r|];
    }
    forall i | 0 <= i < |before| && !InSlot(done + [at], slot, |r|, i) ensures next[i] == before[i] {
      assert at in done + [at];
      assert !InSlot(done, slot, |r|, i) by {
        assert forall m | m in done :: m in done + [at];
      }
    }
  }

  /** Writing the slots in memory is writing them in what can be read, unreadable bytes or not. */
  lemma VisibleRewritten(before: seq<byte>, after: seq<byte>, readable: nat -> bool, pid: u32, matches: seq<nat>)
    requires IsGreedy(Visible(before, readable), Needle(), MAX_INSTANCE_NAME_MATCHES, matches)
    requires IsRewritten(before, after, SUFFIX_OFFSET, Replacement(pid), matches)
    ensures IsRewritten(Visible(before, readable), Visible(after, readable), SUFFIX_OFFSET, Replacement(pid), matches)
  {
    hide Needle, Replacement, IsGreedy;
    RenamingIsApt(pid);
    var seen, r := Visible(before, readable), Replacement(pid);
    forall m | m in matches
      ensures Visible(after, readable)[m + SUFFIX_OFFSET..m + SUFFIX_OFFSET + |r|] == r
    {
      MatchOccurs(seen, Needle(), MAX_INSTANCE_NAME_MATCHES, matches, m);
      forall k | 0 <= k < |r| ensures Visible(after, readable)[m + SUFFIX_OFFSET + k] == r[k] {
        SlotByte(before, after, readable, pid, m, k);
      }
    }
  }

  lemma SlotByte(before: seq<byte>, after: seq<byte>, readable: nat -> bool, pid: u32, m: nat, k: nat)
    requires |before| == |after| && OccursAt(Visible(before, readable), Needle(), m)
    requires k < |Replacement(pid)| == 18 && m + SUFFIX_OFFSET + 18 <= |after|
    requires after[m + SUFFIX_OFFSET..m + SUFFIX_OFFSET + 18] == Replacement(pid)
    ensures Visible(after, readable)[m + SUFFIX_OFFSET + k] == Replacement(pid)[k]
  {
    hide Replacement, Needle;
    RenamingIsApt(pid);
    var i := m + SUFFIX_OFFSET + k;
    assert after[i] == after[m + SUFFIX_OFFSET..m + SUFFIX_OFFSET + 18][k];
    if !readable(i) {
      assert Needle()[SUFFIX_OFFSET + k] == Visible(before, readable)[m..m + 72][SUFFIX_OFFSET + k] == 0;
      NeedleBytes(SUFFIX_OFFSET + k);
      ReplacementBytes(pid, k);
    }
  }

  /** The bytes that a complete rewrite leaves readable hold the old name only beyond the fourth copy. */
  lemma RewriteIsolates(before: seq<byte>, after: seq<byte>, readable: nat -> bool, pid: u32, matches: seq<nat>)
    requires IsGreedy(Visible(before, readable), Needle(), MAX_INSTANCE_NAME_MATCHES, matches)
    requires IsRewritten(before, after, SUFFIX_OFFSET, Replacement(pid), matches)
    ensures var was, remains := Occurrences(Visible(before, readable), Needle()), Occurrences(Visible(after, readable), Needle());
            && remains == was - (set m: int | m in matches)
            && (remains == {} <==> |was| <= MAX_INSTANCE_NAME_MATCHES)
    ensures forall m | m in matches ::
              m + 72 <= |after| && Visible(after, readable)[m..m + 72] == NewName(pid)
  {
    hide Needle, Replacement, NewName, Visible, OccursAt, IsGreedy, IsRewritten;
    VisibleRewritten(before, after, readable, pid, matches);
    RenamingIsApt(pid);
    var seen, left := Visible(before, readable), Visible(after, readable);
    VisibleLength(after, readable);
    RewriteRemovesExactly(seen, left, Needle(), SUFFIX_OFFSET, Replacement(pid), MAX_INSTANCE_NAME_MATCHES, matches);
    forall m | m in matches ensures m + 72 <= |after| && left[m..m + 72] == NewName(pid) {
      MatchOccurs(seen, Needle(), MAX_INSTANCE_NAME_MATCHES, matches, m);
      MatchRenamed(seen, left, pid, matches, m);
    }
  }

  lemma VisibleLength(bytes: seq<byte>, readable: nat -> bool)
    ensures |Visible(bytes, readable)| == |bytes|
  {
  }

  lemma MatchRenamed(seen: seq<byte>, left: seq<byte>, pid: u32, matches: seq<nat>, m: nat)
    requires IsRewritten(seen, left, SUFFIX_OFFSET, Replacement(pid), matches)
    requires IsGreedy(seen, Needle(), MAX_INSTANCE_NAME_MATCHES, matches) && m in matches
    ensures m + 72 <= |left| && left[m..m + 72] == NewName(pid)
  {
    hide Needle, Replacement, NewName, IsGreedy;
    RenamingIsApt(pid);
    SlotRenames(pid);
    MatchOccurs(seen, Needle(), MAX_INSTANCE_NAME_MATCHES, matches, m);
    forall i | m <= i < m + 72 && !(m + 52 <= i < m + 70) ensures left[i] == seen[i] {
      OutsideSlots(seen, pid, matches, m, i);
    }
    assert seen[m..m + 72] == Needle();
    assert left[m..m + 52] == seen[m..m + 72][..52];
    assert left[m + 70..m + 72] == seen[m..m + 72][70..] == [0, 0];
    assert left[m..m + 72] == left[m..m + 52] + left[m + 52..m + 70] + left[m + 70..m + 72];
  }

  lemma OutsideSlots(seen: seq<byte>, pid: u32, matches: seq<nat>, m: nat, i: nat)
    requires IsGreedy(seen, Needle(), MAX_INSTANCE_NAME_MATCHES, matches) && m in matches
    requires m <= i < m + 72 && !(m + 52 <= i < m + 70)
    ensures !InSlot(matches, SUFFIX_OFFSET, |Replacement(pid)|, i)
  {
    hide Needle, Replacement, IsGreedy;
    RenamingIsApt(pid);
    forall q | q in matches ensures q == m || q + 72 <= m || m + 72 <= q {
      MatchesApart(seen, matches, m, q);
    }
  }

  lemma MatchesApart(seen: seq<byte>, matches: seq<nat>, m: nat, q: nat)
    requires IsGreedy(seen, Needle(), MAX_INSTANCE_NAME_MATCHES, matches) && m in matches && q in matches
    ensures q == m || q + 72 <= m || m + 72 <= q
  {
    hide Needle, IsGreedy;
    RenamingIsApt(0);
    var a :| 0 <= a < |matches| && matches[a] == m;
    var b :| 0 <= b < |matches| && matches[b] == q;
    if a < b {
      Spaced(seen, Needle(), MAX_INSTANCE_NAME_MATCHES, matches, a, b);
    } else if b < a {
      Spaced(seen, Needle(), MAX_INSTANCE_NAME_MATCHES, matches, b, a);
    }
  }

  // ---------- what is left in memory ----------

  lemma MatchByte(before: seq<byte>, readable: nat -> bool, m: nat, k: nat)
    requires OccursAt(Visible(before, readable), Needle(), m) && k < 72 == |Needle()| && Needle()[k] != 0
    ensures m + k < |before| && readable(m + k) && before[m + k] == Needle()[k]
  {
    hide Needle;
    assert Visible(before, readable)[m..m + 72][k] == Needle()[k];
  }

  lemma OccurrenceByte(before: seq<byte>, j: nat, k: nat)
    requires OccursAt(before, Needle(), j) && k < 72 == |Needle()|
    ensures j + k < |before| && before[j + k] == Needle()[k]
  {
    hide Needle;
    assert before[j..j + 72][k] == Needle()[k];
  }

  lemma NotBefore(before: seq<byte>, readable: nat -> bool, m: nat, j: nat)
    requires OccursAt(Visible(before, readable), Needle(), m) && OccursAt(before, Needle(), j)
    requires |Needle()| == 72
    ensures j < m ==> j + 72 <= m
  {
    hide Needle, OccursAt, Visible;
    if j < m < j + 72 {
      NeedleBytes(0);
      MatchByte(before, readable, m, 0);
      NeedleBytes(m - j);
      OccurrenceByte(before, j, m - j);
    }
  }

  lemma NotAfterEven(before: seq<byte>, readable: nat -> bool, m: nat, j: nat)
    requires OccursAt(Visible(before, readable), Needle(), m) && OccursAt(before, Needle(), j)
    requires |Needle()| == 72 && m < j < m + 69
    ensures (j - m) % 2 != 0
  {
    hide Needle, OccursAt, Visible;
    var k := j - m;
    if k % 2 == 0 {
      NeedleBytes(0);
      OccurrenceByte(before, j, 0);
      NeedleBytes(k);
      MatchByte(before, readable, m, k);
    }
  }

  lemma NotAfterOdd(before: seq<byte>, readable: nat -> bool, m: nat, j: nat)
    requires OccursAt(Visible(before, readable), Needle(), m) && OccursAt(before, Needle(), j)
    requires |Needle()| == 72 && m < j < m + 69
    ensures (j - m) % 2 == 0
  {
    hide Needle, OccursAt, Visible;
    var k := j - m + 1;
    if k % 2 == 0 {
      NeedleBytes(1);
      OccurrenceByte(before, j, 1);
      NeedleBytes(k);
      MatchByte(before, readable, m, k);
    }
  }

  /** A copy in memory that overlaps a match overlaps its slot at most in the last, unread byte. */
  lemma NearMiss(before: seq<byte>, readable: nat -> bool, m: nat, j: nat)
    requires OccursAt(Visible(before, readable), Needle(), m) && OccursAt(before, Needle(), j)
    ensures j == m || j == m + 69 || j + 72 <= m + 52 || m + 70 <= j
  {
    hide Needle, OccursAt, Visible;
    RenamingIsApt(0);
    NotBefore(before, readable, m, j);
    if m < j < m + 69 {
      NotAfterEven(before, readable, m, j);
      NotAfterOdd(before, readable, m, j);
    }
  }

  /** The copies whose first byte lies, unread, in the last byte of a match's slot. */
  function Brushed(matches: seq<nat>): set<int> {
    set m: int | m in matches :: m + 69
  }

  /** Every byte of the name but its zeros was read. */
  predicate ReadInFull(readable: nat -> bool, j: int) {
    forall k | 0 <= k < |Needle()| && Needle()[k] != 0 :: 0 <= j + k && readable(j + k)
  }

  lemma SeenIffRead(before: seq<byte>, readable: nat -> bool, j: nat)
    requires OccursAt(before, Needle(), j)
    ensures OccursAt(Visible(before, readable), Needle(), j) <==> ReadInFull(readable, j)
  {
    RenamingIsApt(0);
    hide Needle;
    var seen := Visible(before, readable);
    forall k | 0 <= k < 72
      ensures seen[j..j + 72][k] == Needle()[k] <==> (Needle()[k] != 0 ==> readable(j + k))
    {
      assert before[j..j + 72][k] == Needle()[k];
    }
    if ReadInFull(readable, j) {
      assert seen[j..j + 72] == Needle();
    }
  }

  lemma CopyRemains(before: seq<byte>, after: seq<byte>, readable: nat -> bool, pid: u32, matches: seq<nat>, j: nat)
    requires IsGreedy(Visible(before, readable), Needle(), MAX_INSTANCE_NAME_MATCHES, matches)
    requires IsRewritten(before, after, SUFFIX_OFFSET, Replacement(pid), matches)
    requires OccursAt(before, Needle(), j) && j !in matches && j !in Brushed(matches)
    ensures OccursAt(after, Needle(), j)
  {
    hide Needle, Replacement, IsGreedy, Visible, IsRewritten;
    RenamingIsApt(pid);
    forall m | m in matches ensures j + 72 <= m + 52 || m + 70 <= j {
      MatchOccurs(Visible(before, readable), Needle(), MAX_INSTANCE_NAME_MATCHES, matches, m);
      NearMiss(before, readable, m, j);
    }
    SameAway(before, after, Needle(), SUFFIX_OFFSET, Replacement(pid), matches, j);
  }

  lemma CopyIsOld(before: seq<byte>, after: seq<byte>, pid: u32, matches: seq<nat>, j: nat)
    requires IsRewritten(before, after, SUFFIX_OFFSET, Replacement(pid), matches)
    requires OccursAt(after, Needle(), j)
    ensures OccursAt(before, Needle(), j) && j !in matches && j !in Brushed(matches)
  {
    hide Needle, Replacement, OccursAt;
    RenamingIsApt(pid);
    NewOccurrence(before, after, Needle(), SUFFIX_OFFSET, Replacement(pid), matches, j);
    forall m | m in matches ensures j != m + 69 {
      TouchesNoSlot(after, Needle(), SUFFIX_OFFSET, Replacement(pid), m, j);
    }
  }

  /**
  What a complete rewrite leaves in memory: every copy of the old name except the matches, and except
  a copy that starts in an unread byte where a match was read to end. A copy not read in full is no match.
  */
  lemma RewriteInMemory(before: seq<byte>, after: seq<byte>, readable: nat -> bool, pid: u32, matches: seq<nat>)
    requires IsGreedy(Visible(before, readable), Needle(), MAX_INSTANCE_NAME_MATCHES, matches)
    requires IsRewritten(before, after, SUFFIX_OFFSET, Replacement(pid), matches)
    ensures Occurrences(after, Needle()) ==
            Occurrences(before, Needle()) - (set m: int | m in matches) - Brushed(matches)
    ensures Occurrences(after, Needle()) == {} <==>
              forall j | j in Occurrences(before, Needle()) :: j in matches || j in Brushed(matches)
    ensures forall j | j in Occurrences(before, Needle()) && j in matches :: ReadInFull(readable, j)
    ensures |Occurrences(Visible(before, readable), Needle())| <= MAX_INSTANCE_NAME_MATCHES ==>
              forall j | j in Occurrences(before, Needle()) && ReadInFull(readable, j) :: j in matches
  {
    hide Needle, Replacement, IsGreedy, IsRewritten, OccursAt, ReadInFull, Visible, Brushed;
    var seen := Visible(before, readable);
    RenamingIsApt(pid);
    forall j | j in Occurrences(after, Needle())
      ensures j in Occurrences(before, Needle()) && j !in matches && j !in Brushed(matches)
    {
      CopyIsOld(before, after, pid, matches, j);
      OccurrenceInBounds(before, Needle(), j);
    }
    forall j | j in Occurrences(before, Needle()) && j !in matches && j !in Brushed(matches)
      ensures j in Occurrences(after, Needle())
    {
      CopyRemains(before, after, readable, pid, matches, j);
      OccurrenceInBounds(after, Needle(), j);
    }
    FirstByteOnlyFirst(Needle());
    AllFoundIff(seen, Needle(), MAX_INSTANCE_NAME_MATCHES, matches);
    forall j | j in Occurrences(before, Needle())
      ensures j in matches ==> ReadInFull(readable, j)
      ensures ReadInFull(readable, j) ==> j in Occurrences(seen, Needle())
    {
      SeenIffRead(before, readable, j);
      if j in matches {
        MatchOccurs(seen, Needle(), MAX_INSTANCE_NAME_MATCHES, matches, j);
      }
      if OccursAt(seen, Needle(), j) {
        OccurrenceInBounds(seen, Needle(), j);
      }
    }
  }

  /** When everything was read, no copy is left in memory exactly when there were at most four. */
  lemma AllReadIsolates(before: seq<byte>, after: seq<byte>, readable: nat -> bool, pid: u32, matches: seq<nat>)
    requires IsGreedy(Visible(before, readable), Needle(), MAX_INSTANCE_NAME_MATCHES, matches)
    requires IsRewritten(before, after, SUFFIX_OFFSET, Replacement(pid), matches)
    requires forall i | 0 <= i < |before| :: readable(i)
    ensures Occurrences(after, Needle()) == {} <==> |Occurrences(before, Needle())| <= MAX_INSTANCE_NAME_MATCHES
  {
    assert Visible(before, readable) == before && Visible(after, readable) == after;
    hide Visible, Needle, Replacement, IsGreedy, IsRewritten, OccursAt;
    RewriteIsolates(before, after, readable, pid, matches);
  }

  /** Five copies of the name in a row. */
  function FiveCopies(): seq<byte> {
    Needle() + Needle() + Needle() + Needle() + Needle()
  }

  lemma RepeatedAt(n: seq<byte>, k: nat)
    requires |n| == 72 && k < 5
    ensures (n + n + n + n + n)[72 * k..72 * k + 72] == n
  {
    var all := n + n + n + n + n;
    forall i | 0 <= i < 72 ensures all[72 * k + i] == n[i] {
    }
  }

  lemma FiveCopiesFound()
    ensures |FiveCopies()| == 360
    ensures {0, 72, 144, 216, 288} <= Occurrences(FiveCopies(), Needle())
  {
    RenamingIsApt(0);
    hide Needle;
    forall k: nat | k < 5 ensures 72 * k in Occurrences(FiveCopies(), Needle()) {
      RepeatedAt(Needle(), k);
    }
    assert 72 * 0 in Occurrences(FiveCopies(), Needle());
    assert 72 * 1 in Occurrences(FiveCopies(), Needle());
    assert 72 * 2 in Occurrences(FiveCopies(), Needle());
    assert 72 * 3 in Occurrences(FiveCopies(), Needle());
    assert 72 * 4 in Occurrences(FiveCopies(), Needle());
  }

  /** Of five copies one is left, although everything was read and written. */
  lemma FifthCopyRemains(after: seq<byte>, readable: nat -> bool, pid: u32, matches: seq<nat>)
    requires IsGreedy(Visible(FiveCopies(), readable), Needle(), MAX_INSTANCE_NAME_MATCHES, matches)
    requires IsRewritten(FiveCopies(), after, SUFFIX_OFFSET, Replacement(pid), matches)
    requires forall i | 0 <= i < |FiveCopies()| :: readable(i)
    ensures Occurrences(after, Needle()) != {}
  {
    hide Needle, Replacement, IsGreedy, IsRewritten, Visible, FiveCopies, Occurrences;
    FiveCopiesFound();
    SubsetSizes({0, 72, 144, 216, 288}, Occurrences(FiveCopies(), Needle()));
    AllReadIsolates(FiveCopies(), after, readable, pid, matches);
  }

  /**
  The suspended client. How much of each chunk a read copies, and how many bytes of a write at an
  address get through, is up to the operating system.
  */
  class Client {
    const memory: array<byte>
    const copied: nat -> nat
    const accepts: nat -> nat

    constructor (memory: array<byte>, copied: nat -> nat, accepts: nat -> nat)
      ensures this.memory == memory && this.copied == copied && this.accepts == accepts
    {
      this.memory, this.copied, this.accepts := memory, copied, accepts;
    }

    ghost function Seen(): seq<byte>
      reads memory
    {
      Visible(memory[..], IsCopied(copied))
    }

    /** `read_remote` of one chunk: an error unless all of it was copied. */
    method ReadRemote(buffer: array<byte>, from: nat, end: nat) returns (ok: bool)
      requires from <= end <= memory.Length == buffer.Length && buffer != memory
      requires from % IMAGE_READ_CHUNK == 0 && end - from <= IMAGE_READ_CHUNK
      requires forall i | from <= i < end :: buffer[i] == 0
      modifies buffer
      ensures ok <==> end - from <= copied(from / IMAGE_READ_CHUNK)
      ensures buffer[..] == old(buffer[..from]) + Seen()[from..end] + old(buffer[end..])
    {
      var read := copied(from / IMAGE_READ_CHUNK);
      if end - from < read {
        read := end - from;
      }
      for i := 0 to read
        invariant forall k | 0 <= k < buffer.Length ::
                    buffer[k] == if from <= k < from + i then memory[k] else old(buffer[k])
      {
        buffer[from + i] := memory[from + i];
      }
      forall k | from <= k < end ensures buffer[k] == Seen()[k] {
        SameChunk(from, k);
      }
      ghost var want := old(buffer[..from]) + Seen()[from..end] + old(buffer[end..]);
      forall k | 0 <= k < buffer.Length ensures buffer[k] == want[k] {
      }
      assert buffer[..] == want;
      ok := read == end - from;
    }

    /** Copies the image chunk by chunk into a buffer of zeros, whatever becomes of each chunk. */
    method ReadImage() returns (image: array<byte>)
      ensures fresh(image) && image[..] == Seen()
    {
      var size := memory.Length;
      image := new byte[size](_ => 0);
      var offset := 0;
      while offset < size
        invariant fresh(image) && image.Length == size && image != memory
        invariant offset <= size && (offset < size ==> offset % IMAGE_READ_CHUNK == 0)
        invariant image[..offset] == Seen()[..offset]
        invariant forall i | offset <= i < size :: image[i] == 0
      {
        var end := if offset + IMAGE_READ_CHUNK < size then offset + IMAGE_READ_CHUNK else size;
        label before:
        var _ := ReadRemote(image, offset, end);
        assert image[..end] == Seen()[..offset] + Seen()[offset..end];
        assert forall i | end <= i < size :: image[i] == old@before(image[end..])[i - end];
        offset := end;
      }
    }

    /** `write_remote`: an error unless every byte was written. */
    method WriteRemote(at: nat, bytes: seq<byte>) returns (ok: bool)
      requires at + |bytes| <= memory.Length
      modifies memory
      ensures ok <==> |bytes| <= accepts(at)
      ensures forall i | 0 <= i < memory.Length && !(at <= i < at + |bytes|) :: memory[i] == old(memory[i])
      ensures ok ==> memory[..] == old(memory[..at]) + bytes + old(memory[at + |bytes|..])
    {
      var written := if accepts(at) < |bytes| then accepts(at) else |bytes|;
      for i := 0 to written
        invariant forall k | 0 <= k < memory.Length ::
                    memory[k] == if at <= k < at + i then bytes[k - at] else old(memory[k])
      {
        memory[at + i] := bytes[i];
      }
      ok := written == |bytes|;
    }

    /** Writes the replacement into the slot of every match, stopping at the first failure. */
    method WriteAll(matches: seq<nat>, pid: u32) returns (ok: bool)
      requires IsGreedy(Seen(), Needle(), MAX_INSTANCE_NAME_MATCHES, matches)
      modifies memory
      ensures ok <==> forall m | m in matches :: |Replacement(pid)| <= accepts(m + SUFFIX_OFFSET)
      ensures ok ==> IsRewritten(old(memory[..]), memory[..], SUFFIX_OFFSET, Replacement(pid), matches)
      ensures forall i | 0 <= i < memory.Length && !InSlot(matches, SUFFIX_OFFSET, |Replacement(pid)|, i) ::
                memory[i] == old(memory[i])
    {
      hide Needle, Replacement, IsGreedy, IsRewritten;
      RenamingIsApt(pid);
      ghost var before := memory[..];
      ghost var seen := Seen();
      var k := 0;
      NothingRewritten(before, Replacement(pid));
      while k < |matches|
        invariant k <= |matches|
        invariant IsRewritten(before, memory[..], SUFFIX_OFFSET, Replacement(pid), matches[..k])
        invariant forall m | m in matches[..k] :: |Replacement(pid)| <= accepts(m + SUFFIX_OFFSET)
      {
        ghost var now := memory[..];
        SlotInside(seen, pid, matches, k);
        RewrittenOutside(before, now, Replacement(pid), matches, k);
        var one := WriteRemote(matches[k] + SUFFIX_OFFSET, Replacement(pid));
        if !one {
          assert matches[k] in matches;
          OneMoreSlot(matches, k, |Replacement(pid)|);
          return false;
        }
        Spliced(before, now, memory[..], SUFFIX_OFFSET, Replacement(pid), matches[..k], matches[k]);
        assert matches[..k + 1] == matches[..k] + [matches[k]];
        k := k + 1;
      }
      assert matches[..k] == matches;
      RewrittenOutside(before, memory[..], Replacement(pid), matches, k);
      ok := true;
    }

    /**
    `isolate_instance_object`, once the main image has been located. Its check of the suffix length is
    left out: by `RenamingIsApt` the lengths always agree.
    */
    method IsolateInstanceObject(pid: u32) returns (r: Result<(), nat>, ghost matches: seq<nat>)
      modifies memory
      ensures IsGreedy(old(Seen()), Needle(), MAX_INSTANCE_NAME_MATCHES, matches)
      ensures matches == [] <==> Occurrences(old(Seen()), Needle()) == {}
      ensures r == Err(ERR_NOT_FOUND) <==> matches == []
      ensures r.Ok? <==> matches != [] && forall m | m in matches :: 18 <= accepts(m + SUFFIX_OFFSET)
      ensures r.Err? ==> r.error in {ERR_NOT_FOUND, ERR_NOT_WRITTEN}
      ensures forall i | 0 <= i < memory.Length && !InSlot(matches, SUFFIX_OFFSET, 18, i) :: memory[i] == old(memory[i])
      ensures r.Ok? ==> Occurrences(Seen(), Needle()) == Occurrences(old(Seen()), Needle()) - set m: int | m in matches
      ensures r.Ok? ==> (Occurrences(Seen(), Needle()) == {} <==>
                           |Occurrences(old(Seen()), Needle())| <= MAX_INSTANCE_NAME_MATCHES)
      ensures r.Ok? ==> forall m | m in matches :: m + 72 <= memory.Length && Seen()[m..m + 72] == NewName(pid)
      ensures r.Ok? ==> Occurrences(memory[..], Needle()) ==
                          Occurrences(old(memory[..]), Needle()) - (set m: int | m in matches) - Brushed(matches)
      ensures r.Ok? && ReadsEverything(copied) ==>
                (Occurrences(memory[..], Needle()) == {} <==>
                   |Occurrences(old(memory[..]), Needle())| <= MAX_INSTANCE_NAME_MATCHES)
    {
      hide Needle, NewName, IsGreedy, IsRewritten, Visible, OccursAt, InSlot, Occurrences, Brushed, IsCopied, Replacement, ReadsEverything;
      RenamingIsApt(pid);
      VisibleLength(memory[..], IsCopied(copied));
      var image := ReadImage();
      var found := FindAll(image[..], Needle(), MAX_INSTANCE_NAME_MATCHES);
      matches := found;
      NoMatchIffNone(Seen(), found);
      if found == [] {
        return Err(ERR_NOT_FOUND), matches;
      }
      ghost var before := memory[..];
      var ok := WriteAll(found, pid);
      if !ok {
        return Err(ERR_NOT_WRITTEN), matches;
      }
      WholeRewrite(before, memory[..], copied, pid, found);
      r := Ok(());
    }
  }

  ghost predicate ReadsEverything(copied: nat -> nat) {
    forall c: nat :: copied(c) >= IMAGE_READ_CHUNK
  }

  lemma WholeRewrite(before: seq<byte>, after: seq<byte>, copied: nat -> nat, pid: u32, matches: seq<nat>)
    requires IsGreedy(Visible(before, IsCopied(copied)), Needle(), MAX_INSTANCE_NAME_MATCHES, matches)
    requires IsRewritten(before, after, SUFFIX_OFFSET, Replacement(pid), matches)
    ensures var was, remains := Occurrences(Visible(before, IsCopied(copied)), Needle()),
                                Occurrences(Visible(after, IsCopied(copied)), Needle());
            && remains == was - (set m: int | m in matches)
            && (remains == {} <==> |was| <= MAX_INSTANCE_NAME_MATCHES)
    ensures |Visible(after, IsCopied(copied))| == |after|
    ensures forall m | m in matches ::
              m + 72 <= |after| && Visible(after, IsCopied(copied))[m..m + 72] == NewName(pid)
    ensures Occurrences(after, Needle()) ==
            Occurrences(before, Needle()) - (set m: int | m in matches) - Brushed(matches)
    ensures ReadsEverything(copied) ==>
              (Occurrences(after, Needle()) == {} <==> |Occurrences(before, Needle())| <= MAX_INSTANCE_NAME_MATCHES)
  {
    hide Needle, NewName, Replacement, IsGreedy, IsRewritten, Visible, OccursAt, Occurrences, Brushed, IsCopied;
    RewriteIsolates(before, after, IsCopied(copied), pid, matches);
    RewriteInMemory(before, after, IsCopied(copied), pid, matches);
    VisibleLength(after, IsCopied(copied));
    if ReadsEverything(copied) {
      EverythingRead(copied, |before|);
      AllReadIsolates(before, after, IsCopied(copied), pid, matches);
    }
  }

  lemma EverythingRead(copied: nat -> nat, n: nat)
    requires ReadsEverything(copied)
    ensures forall i | 0 <= i < n :: IsCopied(copied)(i)
  {
    forall i | 0 <= i < n ensures IsCopied(copied)(i) {
      assert copied(i / IMAGE_READ_CHUNK) >= IMAGE_READ_CHUNK;
    }
  }

  lemma SameChunk(from: nat, k: nat)
    requires from % IMAGE_READ_CHUNK == 0 && from <= k < from + IMAGE_READ_CHUNK
    ensures k / IMAGE_READ_CHUNK == from / IMAGE_READ_CHUNK && k % IMAGE_READ_CHUNK == k - from
  {
  }

  lemma NothingRewritten(before: seq<byte>, r: seq<byte>)
    ensures IsRewritten(before, before, SUFFIX_OFFSET, r, [])
  {
  }

  lemma SlotInside(seen: seq<byte>, pid: u32, matches: seq<nat>, k: nat)
    requires IsGreedy(seen, Needle(), MAX_INSTANCE_NAME_MATCHES, matches) && k < |matches|
    ensures matches[k] + 72 <= |seen| && |Replacement(pid)| == 18
    ensures forall m | m in matches[..k] :: m + 18 <= matches[k]
  {
    hide Needle, Replacement, IsGreedy;
    RenamingIsApt(pid);
    MatchOccurs(seen, Needle(), MAX_INSTANCE_NAME_MATCHES, matches, matches[k]);
    forall i | 0 <= i < k ensures matches[i] + 72 <= matches[k] {
      Spaced(seen, Needle(), MAX_INSTANCE_NAME_MATCHES, matches, i, k);
    }
  }

  lemma RewrittenOutside(before: seq<byte>, now: seq<byte>, r: seq<byte>, matches: seq<nat>, k: nat)
    requires k <= |matches| && IsRewritten(before, now, SUFFIX_OFFSET, r, matches[..k])
    ensures |now| == |before|
    ensures forall i | 0 <= i < |now| && !InSlot(matches, SUFFIX_OFFSET, |r|, i) :: now[i] == before[i]
  {
    forall i | 0 <= i < |now| && !InSlot(matches, SUFFIX_OFFSET, |r|, i) ensures now[i] == before[i] {
      assert !InSlot(matches[..k], SUFFIX_OFFSET, |r|, i) by {
        assert forall m | m in matches[..k] :: m in matches;
      }
    }
  }

  lemma OneMoreSlot(matches: seq<nat>, k: nat, length: nat)
    requires k < |matches|
    ensures forall i | matches[k] + SUFFIX_OFFSET <= i < matches[k] + SUFFIX_OFFSET + length ::
              InSlot(matches, SUFFIX_OFFSET, length, i)
  {
    assert matches[k] in matches;
  }

  lemma NoMatchIffNone(seen: seq<byte>, matches: seq<nat>)
    requires IsGreedy(seen, Needle(), MAX_INSTANCE_NAME_MATCHES, matches)
    ensures matches == [] <==> Occurrences(seen, Needle()) == {}
  {
    hide Needle, IsGreedy, OccursAt;
    RenamingIsApt(0);
    FirstByteOnlyFirst(Needle());
    AllFoundIff(seen, Needle(), MAX_INSTANCE_NAME_MATCHES, matches);
    if matches != [] {
      assert matches[0] in set m: int | m in matches;
    } else {
      assert (set m: int | m in matches) == {};
      NoneFound(seen);
    }
  }

  lemma NoneFound(seen: seq<byte>)
    requires IsGreedy(seen, Needle(), MAX_INSTANCE_NAME_MATCHES, [])
    ensures Occurrences(seen, Needle()) == {}
  {
  }
}
