/** Trimming, numerals and letter case, shared by the models that read or format text. */
module Text {
  import opened Bytes
  import opened Wrappers

  /** Unicode `White_Space`, which `str::trim` strips. */
  predicate IsWhitespace(c: char) {
    var n := c as int;
    9 <= n <= 13 || n == 0x20 || n == 0x85 || n == 0xA0 || n == 0x1680 || 0x2000 <= n <= 0x200A
    || n == 0x2028 || n == 0x2029 || n == 0x202F || n == 0x205F || n == 0x3000
  }

  function Trim(s: string): string
    decreases |s|
  {
    if s == "" then ""
    else if IsWhitespace(s[0]) then Trim(s[1..])
    else if IsWhitespace(s[|s| - 1]) then Trim(s[..|s| - 1])
    else s
  }

  /** Trimming takes whitespace off both ends, and all of it. */
  lemma {:induction false} TrimExact(s: string) returns (from: nat, to: nat)
    ensures from <= to <= |s| && Trim(s) == s[from..to]
    ensures forall k | 0 <= k < |s| && !(from <= k < to) :: IsWhitespace(s[k])
    ensures from < to ==> !IsWhitespace(s[from]) && !IsWhitespace(s[to - 1])
    decreases |s|
  {
    hide IsWhitespace;
    if s == "" {
      from, to := 0, 0;
    } else if IsWhitespace(s[0]) {
      from, to := TrimExact(s[1..]);
      assert s[1..][from..to] == s[from + 1..to + 1];
      from, to := from + 1, to + 1;
    } else if IsWhitespace(s[|s| - 1]) {
      from, to := TrimExact(s[..|s| - 1]);
      assert s[..|s| - 1][from..to] == s[from..to];
    } else {
      from, to := 0, |s|;
    }
  }

  predicate StartsWith(s: string, prefix: string) {
    |prefix| <= |s| && s[..|prefix|] == prefix
  }

  predicate EndsWith(s: string, suffix: string) {
    |suffix| <= |s| && s[|s| - |suffix|..] == suffix
  }

  function Digit(d: nat): char
    requires d < 10
  {
    (48 + d) as char
  }

  function Decimal(n: nat): (s: string)
    ensures s != ""
  {
    if n < 10 then [Digit(n)] else Decimal(n / 10) + [Digit(n % 10)]
  }

  predicate AsciiDigits(s: string) {
    forall i | 0 <= i < |s| :: '0' <= s[i] <= '9'
  }

  /** The number a string of digits denotes. */
  function ReadDecimal(s: string): nat
    requires AsciiDigits(s)
  {
    if s == "" then 0 else 10 * ReadDecimal(s[..|s| - 1]) + (s[|s| - 1] as int - 48)
  }

  lemma {:induction false} DecimalReads(n: nat)
    ensures AsciiDigits(Decimal(n)) && ReadDecimal(Decimal(n)) == n
  {
    if n >= 10 {
      DecimalReads(n / 10);
      var d := Decimal(n);
      assert d[..|d| - 1] == Decimal(n / 10);
    }
  }

  lemma DecimalInjective(m: nat, n: nat)
    requires Decimal(m) == Decimal(n)
    ensures m == n
  {
    DecimalReads(m);
    DecimalReads(n);
  }

  predicate IsLowerHex(s: string) {
    forall i | 0 <= i < |s| :: '0' <= s[i] <= '9' || 'a' <= s[i] <= 'f'
  }

  /** The value of a hexadecimal digit in either case. */
  function HexNibble(b: byte): (d: Option<nat>)
    ensures d.Some? ==> d.value < 16
  {
    if '0' as int <= b <= '9' as int then Some(b - '0' as int)
    else if 'a' as int <= b <= 'f' as int then Some(b - 'a' as int + 10)
    else if 'A' as int <= b <= 'F' as int then Some(b - 'A' as int + 10)
    else None
  }

  function LowerChar(c: char): char {
    if 'A' <= c <= 'Z' then (c as int + 32) as char else c
  }

  function Lower(s: string): string {
    seq(|s|, i requires 0 <= i < |s| => LowerChar(s[i]))
  }

  /** `eq_ignore_ascii_case`. */
  predicate EqIgnoreCase(a: string, b: string) {
    Lower(a) == Lower(b)
  }
}
