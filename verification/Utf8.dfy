/** UTF-8 (sections 3 and 4 of RFC 3629) over Dafny's `char`, which is a Unicode scalar value. */
module Utf8 {
  import opened Bytes
  import opened Wrappers

  function EncodeChar(c: char): (bs: seq<byte>)
    ensures 1 <= |bs| <= 4
  {
    var n := c as int;
    if n < 0x80 then [n]
    else if n < 0x800 then [0xC0 + n / 64, 0x80 + n % 64]
    else if n < 0x1_0000 then [0xE0 + n / 64 / 64, 0x80 + n / 64 % 64, 0x80 + n % 64]
    else [0xF0 + n / 64 / 64 / 64, 0x80 + n / 64 / 64 % 64, 0x80 + n / 64 % 64, 0x80 + n % 64]
  }

  function Encode(s: string): seq<byte> {
    if s == "" then [] else EncodeChar(s[0]) + Encode(s[1..])
  }

  predicate IsTail(b: byte) {
    0x80 <= b < 0xC0
  }

  function Scalar2(b0: int, b1: int): int {
    64 * (b0 - 0xC0) + (b1 - 0x80)
  }

  function Scalar3(b0: int, b1: int, b2: int): int {
    64 * (64 * (b0 - 0xE0) + (b1 - 0x80)) + (b2 - 0x80)
  }

  function Scalar4(b0: int, b1: int, b2: int, b3: int): int {
    64 * (64 * (64 * (b0 - 0xF0) + (b1 - 0x80)) + (b2 - 0x80)) + (b3 - 0x80)
  }

  predicate IsScalar(n: int) {
    0 <= n < 0xD800 || 0xE000 <= n < 0x11_0000
  }

  /** The scalar value whose shortest encoding starts `bs`: overlong forms, surrogates and
      values above U+10FFFF are malformed. */
  function Head(bs: seq<byte>): Option<char> {
    if |bs| >= 1 && bs[0] < 0x80 then Some(bs[0] as char)
    else if |bs| >= 2 && 0xC2 <= bs[0] < 0xE0 && IsTail(bs[1]) then
      Some(Scalar2(bs[0], bs[1]) as char)
    else if |bs| >= 3 && 0xE0 <= bs[0] < 0xF0 && IsTail(bs[1]) && IsTail(bs[2]) then
      var n := Scalar3(bs[0], bs[1], bs[2]);
      if 0x800 <= n && IsScalar(n) then Some(n as char) else None
    else if |bs| >= 4 && 0xF0 <= bs[0] < 0xF8 && IsTail(bs[1]) && IsTail(bs[2]) && IsTail(bs[3]) then
      var n := Scalar4(bs[0], bs[1], bs[2], bs[3]);
      if 0x1_0000 <= n && IsScalar(n) then Some(n as char) else None
    else None
  }

  /** `String::from_utf8`. */
  function Decode(bs: seq<byte>): Option<string>
    decreases |bs|
  {
    if bs == [] then Some("")
    else
      match Head(bs)
      case None => None
      case Some(c) =>
        if |EncodeChar(c)| > |bs| then None
        else
          match Decode(bs[|EncodeChar(c)|..])
          case None => None
          case Some(s) => Some([c] + s)
  }

  lemma DivMod64(q: int, r: int)
    requires 0 <= r < 64
    ensures (64 * q + r) / 64 == q && (64 * q + r) % 64 == r
  {
  }

  lemma HeadOfEncodeChar(c: char, rest: seq<byte>)
    ensures Head(EncodeChar(c) + rest) == Some(c)
  {
    var n := c as int;
    var e := EncodeChar(c);
    var bs := e + rest;
    assert forall i | 0 <= i < |e| :: bs[i] == e[i];
    var q := n / 64;
    var p := q / 64;
    assert n == 64 * q + n % 64 && q == 64 * p + q % 64 && p == 64 * (p / 64) + p % 64;
  }

  lemma EncodeCharOfHead(bs: seq<byte>, c: char)
    requires Head(bs) == Some(c)
    ensures EncodeChar(c) <= bs
  {
    if bs[0] >= 0x80 {
      var b0: int, b1: int := bs[0], bs[1];
      if b0 < 0xE0 {
        DivMod64(b0 - 0xC0, b1 - 0x80);
      } else if b0 < 0xF0 {
        DivMod64(64 * (b0 - 0xE0) + (b1 - 0x80), bs[2] - 0x80);
        DivMod64(b0 - 0xE0, b1 - 0x80);
      } else {
        var m := 64 * (b0 - 0xF0) + (b1 - 0x80);
        DivMod64(64 * m + (bs[2] - 0x80), bs[3] - 0x80);
        DivMod64(m, bs[2] - 0x80);
        DivMod64(b0 - 0xF0, b1 - 0x80);
      }
    }
  }

  lemma {:induction false} DecodeOfEncode(s: string)
    ensures Decode(Encode(s)) == Some(s)
  {
    if s != "" {
      HeadOfEncodeChar(s[0], Encode(s[1..]));
      DecodeOfEncode(s[1..]);
      assert [s[0]] + s[1..] == s;
      assert Encode(s)[|EncodeChar(s[0])|..] == Encode(s[1..]);
    }
  }

  lemma DecodeStep(bs: seq<byte>, s: string)
    requires bs != [] && Decode(bs) == Some(s)
    ensures s != "" && EncodeChar(s[0]) <= bs
    ensures Decode(bs[|EncodeChar(s[0])|..]) == Some(s[1..])
  {
    EncodeCharOfHead(bs, Head(bs).value);
  }

  lemma {:induction false} EncodeOfDecode(bs: seq<byte>, s: string)
    requires Decode(bs) == Some(s)
    ensures Encode(s) == bs
    decreases |bs|
  {
    hide Head, EncodeChar;
    if bs != [] {
      DecodeStep(bs, s);
      var e := EncodeChar(s[0]);
      EncodeOfDecode(bs[|e|..], s[1..]);
      assert bs == e + bs[|e|..];
    }
  }

  /** Length of the well-formed sequence that starts `bs`, by the byte ranges of the grammar in
      section 4 of RFC 3629; 0 when there is none. */
  function Lead(bs: seq<byte>): (n: nat)
    ensures n <= |bs|
  {
    if bs == [] then 0
    else if bs[0] < 0x80 then 1
    else if |bs| >= 2 && 0xC2 <= bs[0] < 0xE0 && IsTail(bs[1]) then 2
    else if |bs| >= 3 && 0xE0 <= bs[0] < 0xF0 && IsTail(bs[1]) && IsTail(bs[2])
            && (bs[0] == 0xE0 ==> bs[1] >= 0xA0) && (bs[0] == 0xED ==> bs[1] < 0xA0) then 3
    else if |bs| >= 4 && 0xF0 <= bs[0] < 0xF5 && IsTail(bs[1]) && IsTail(bs[2]) && IsTail(bs[3])
            && (bs[0] == 0xF0 ==> bs[1] >= 0x90) && (bs[0] == 0xF4 ==> bs[1] < 0x90) then 4
    else 0
  }

  /** The bytes are a valid UTF-8 string, which is the invariant of a Rust `String`. */
  predicate Valid(bs: seq<byte>)
    decreases |bs|
  {
    bs == [] || (Lead(bs) > 0 && Valid(bs[Lead(bs)..]))
  }

  lemma LeadIsHead(bs: seq<byte>)
    ensures Lead(bs) > 0 <==> Head(bs).Some?
    ensures Lead(bs) > 0 ==> Lead(bs) == |EncodeChar(Head(bs).value)|
  {
  }

  /** The byte ranges accept exactly the encodings of strings of scalar values. */
  lemma {:induction false} ValidIsDecodable(bs: seq<byte>)
    ensures Valid(bs) <==> Decode(bs).Some?
    decreases |bs|
  {
    if bs != [] {
      LeadIsHead(bs);
      if Lead(bs) > 0 {
        ValidIsDecodable(bs[Lead(bs)..]);
      }
    }
  }

  lemma EncodeInjective(s: string, t: string)
    requires Encode(s) == Encode(t)
    ensures s == t
  {
    DecodeOfEncode(s);
    DecodeOfEncode(t);
  }

  lemma {:induction false} EncodeConcat(s: string, t: string)
    ensures Encode(s + t) == Encode(s) + Encode(t)
  {
    hide EncodeChar;
    if s == "" {
      assert s + t == t;
    } else {
      EncodeConcat(s[1..], t);
      assert (s + t)[1..] == s[1..] + t;
    }
  }
}
