/** The header that carries the name of an attachment: its UTF-8 bytes in hexadecimal. */
module AttachmentNames {
  import opened Bytes
  import opened Text
  import Utf8
  import opened Wrappers

  datatype NameError = BadEncoding | NotUtf8

  function HexDigit(d: nat): byte
    requires d < 16
  {
    if d < 10 then '0' as int + d else 'a' as int + d - 10
  }

  /** The lower-case spelling of some bytes, two digits each. */
  function HexOf(bytes: seq<byte>): seq<byte> {
    if bytes == [] then []
    else HexOf(bytes[..|bytes| - 1]) + [HexDigit(bytes[|bytes| - 1] / 16), HexDigit(bytes[|bytes| - 1] % 16)]
  }

  function LowerByte(b: byte): byte {
    if 'A' as int <= b <= 'Z' as int then b + 32 else b
  }

  function LowerBytes(s: seq<byte>): seq<byte> {
    seq(|s|, i requires 0 <= i < |s| => LowerByte(s[i]))
  }

  lemma NibbleExact(b: byte, d: nat)
    requires d < 16
    ensures HexNibble(b) == Some(d) <==> LowerByte(b) == HexDigit(d)
  {
  }

  lemma {:induction false} HexOfLength(bytes: seq<byte>)
    ensures |HexOf(bytes)| == 2 * |bytes|
  {
    if bytes != [] {
      HexOfLength(bytes[..|bytes| - 1]);
    }
  }

  /** The two digits of every byte are where they belong. */
  lemma {:induction false} HexOfAt(bytes: seq<byte>, i: nat)
    requires i < |bytes|
    ensures |HexOf(bytes)| == 2 * |bytes|
    ensures HexOf(bytes)[2 * i] == HexDigit(bytes[i] / 16) && HexOf(bytes)[2 * i + 1] == HexDigit(bytes[i] % 16)
  {
    HexOfLength(bytes);
    HexOfLength(bytes[..|bytes| - 1]);
    if i < |bytes| - 1 {
      HexOfAt(bytes[..|bytes| - 1], i);
    }
  }

  predicate Spells(encoded: seq<byte>, text: string) {
    LowerBytes(encoded) == HexOf(Utf8.Encode(text))
  }

  /** The first `n` bytes are read off the first `2 * n` digits. */
  predicate ReadSoFar(encoded: seq<byte>, bytes: seq<byte>) {
    2 * |bytes| <= |encoded| && LowerBytes(encoded[..2 * |bytes|]) == HexOf(bytes)
  }

  lemma ReadPair(encoded: seq<byte>, bytes: seq<byte>, high: nat, low: nat)
    requires ReadSoFar(encoded, bytes) && 2 * |bytes| + 2 <= |encoded| && high < 16 && low < 16
    requires HexNibble(encoded[2 * |bytes|]) == Some(high) && HexNibble(encoded[2 * |bytes| + 1]) == Some(low)
    ensures ReadSoFar(encoded, bytes + [16 * high + low])
  {
    var i, next := 2 * |bytes|, bytes + [16 * high + low];
    NibbleExact(encoded[i], high);
    NibbleExact(encoded[i + 1], low);
    hide LowerByte, HexDigit, HexNibble;
    assert next[..|next| - 1] == bytes;
    assert LowerBytes(encoded[..i + 2]) == LowerBytes(encoded[..i]) + [LowerByte(encoded[i]), LowerByte(encoded[i + 1])];
  }

  /** A byte that is no digit is in no spelling. */
  lemma NoDigitNoSpelling(encoded: seq<byte>, bytes: seq<byte>, k: nat)
    requires LowerBytes(encoded) == HexOf(bytes) && k < |encoded|
    ensures HexNibble(encoded[k]).Some?
  {
    HexOfLength(bytes);
    var i := k / 2;
    HexOfAt(bytes, i);
    assert k == 2 * i || k == 2 * i + 1;
    var d := if k == 2 * i then bytes[i] / 16 else bytes[i] % 16;
    assert LowerBytes(encoded)[k] == HexDigit(d);
    NibbleExact(encoded[k], d);
  }

  lemma {:induction false} HexOfInjective(a: seq<byte>, b: seq<byte>)
    requires HexOf(a) == HexOf(b)
    ensures a == b
  {
    HexOfLength(a);
    HexOfLength(b);
    forall i | 0 <= i < |a| ensures a[i] == b[i] {
      HexOfAt(a, i);
      HexOfAt(b, i);
      SameDigit(a[i] / 16, b[i] / 16);
      SameDigit(a[i] % 16, b[i] % 16);
    }
  }

  lemma SameDigit(d: nat, e: nat)
    requires d < 16 && e < 16 && HexDigit(d) == HexDigit(e)
    ensures d == e
  {
  }

  /** The pairs of digits, read one after the other. */
  method DecodeHex(encoded: seq<byte>) returns (r: Option<seq<byte>>)
    ensures r.Some? ==> LowerBytes(encoded) == HexOf(r.value)
    ensures r.None? ==> forall bytes :: LowerBytes(encoded) != HexOf(bytes)
  {
    hide HexOf, HexNibble, HexDigit, LowerBytes;
    if |encoded| % 2 != 0 {
      forall bytes ensures LowerBytes(encoded) != HexOf(bytes) {
        HexOfLength(bytes);
        LowerLength(encoded);
      }
      return None;
    }
    var bytes: seq<byte> := [];
    NothingRead(encoded);
    var i := 0;
    while i < |encoded|
      invariant i == 2 * |bytes| <= |encoded| && ReadSoFar(encoded, bytes)
    {
      var high, low := HexNibble(encoded[i]), HexNibble(encoded[i + 1]);
      if high.None? || low.None? {
        forall bytes | LowerBytes(encoded) == HexOf(bytes) ensures false {
          NoDigitNoSpelling(encoded, bytes, i);
          NoDigitNoSpelling(encoded, bytes, i + 1);
        }
        return None;
      }
      ReadPair(encoded, bytes, high.value, low.value);
      bytes := bytes + [16 * high.value + low.value];
      i := i + 2;
    }
    assert encoded[..i] == encoded;
    r := Some(bytes);
  }

  lemma LowerLength(s: seq<byte>)
    ensures |LowerBytes(s)| == |s|
  {
  }

  lemma NothingRead(encoded: seq<byte>)
    ensures ReadSoFar(encoded, [])
  {
  }

  /** `decode_hex_utf8`: a name comes out exactly when the header spells its bytes, in either case of the digits. */
  method DecodeHexUtf8(encoded: seq<byte>) returns (r: Result<string, NameError>)
    ensures r.Ok? ==> Spells(encoded, r.value)
    ensures r.Err? ==> forall text :: !Spells(encoded, text)
  {
    hide HexOf, LowerBytes;
    var bytes := DecodeHex(encoded);
    if bytes.None? {
      return Err(BadEncoding);
    }
    var text := Utf8.Decode(bytes.value);
    if text.None? {
      forall name | Spells(encoded, name) ensures false {
        HexOfInjective(bytes.value, Utf8.Encode(name));
        Utf8.DecodeOfEncode(name);
      }
      return Err(NotUtf8);
    }
    Utf8.EncodeOfDecode(bytes.value, text.value);
    r := Ok(text.value);
  }

  /** A header spells one name at most, so the name read is the name sent. */
  lemma SpellsOneName(encoded: seq<byte>, a: string, b: string)
    requires Spells(encoded, a) && Spells(encoded, b)
    ensures a == b
  {
    HexOfInjective(Utf8.Encode(a), Utf8.Encode(b));
    Utf8.EncodeInjective(a, b);
  }
}
