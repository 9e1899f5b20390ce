/** The error report of the terrain library: a JSON object built by hand around an escaped message. */
module IsomReport {
  import opened Bytes
  import opened Text
  import Utf8
  import opened Wrappers

  const QUOTE: byte := 0x22
  const BACKSLASH: byte := 0x5C
  const NEWLINE: byte := 0x0A
  const RETURN: byte := 0x0D
  const TAB: byte := 0x09
  const COMMA: byte := 0x2C
  const COLON: byte := 0x3A
  const OPEN: byte := 0x7B
  const CLOSE: byte := 0x7D

  /** The bytes of ASCII text. */
  function Ascii(s: string): (bs: seq<byte>)
    ensures |bs| == |s|
  {
    seq(|s|, i requires 0 <= i < |s| => s[i] as int % 256)
  }

  // ---------- errorReport ----------

  function EscapeByte(b: byte): seq<byte> {
    if b == QUOTE then [BACKSLASH, QUOTE]
    else if b == BACKSLASH then [BACKSLASH, BACKSLASH]
    else if b == NEWLINE then [BACKSLASH, 'n' as int]
    else if b == RETURN then [BACKSLASH, 'r' as int]
    else if b == TAB then [BACKSLASH, 't' as int]
    else if b >= 0x20 then [b]
    else []
  }

  function Escape(message: seq<byte>): seq<byte> {
    if message == [] then [] else Escape(message[..|message| - 1]) + EscapeByte(message[|message| - 1])
  }

  function Report(message: seq<byte>): seq<byte> {
    Ascii("{\"schema\":\"eud-map-error/1\",\"ok\":false,\"error\":\"") + Escape(message) + Ascii("\"}")
  }

  /** `errorReport`. */
  method ErrorReport(message: seq<byte>) returns (report: seq<byte>)
    ensures report == Report(message)
  {
    hide Ascii;
    var escaped: seq<byte> := [];
    for i := 0 to |message|
      invariant escaped == Escape(message[..i])
    {
      var value := message[i];
      assert message[..i + 1][..i] == message[..i];
      if value == QUOTE {
        escaped := escaped + [BACKSLASH, QUOTE];
      } else if value == BACKSLASH {
        escaped := escaped + [BACKSLASH, BACKSLASH];
      } else if value == NEWLINE {
        escaped := escaped + [BACKSLASH, 'n' as int];
      } else if value == RETURN {
        escaped := escaped + [BACKSLASH, 'r' as int];
      } else if value == TAB {
        escaped := escaped + [BACKSLASH, 't' as int];
      } else if value >= 0x20 {
        escaped := escaped + [value];
      }
    }
    assert message[..|message|] == message;
    report := Ascii("{\"schema\":\"eud-map-error/1\",\"ok\":false,\"error\":\"") + escaped + Ascii("\"}");
  }

  // ---------- reading JSON (RFC 8259) ----------

  /** Four hexadecimal digits, a UTF-16 code unit. */
  function Unit(s: seq<byte>): (u: Option<nat>)
    ensures u.Some? ==> |s| >= 4 && u.value < 0x1_0000
  {
    if |s| < 4 || HexNibble(s[0]).None? || HexNibble(s[1]).None? || HexNibble(s[2]).None? || HexNibble(s[3]).None? then None
    else Some(((HexNibble(s[0]).value * 16 + HexNibble(s[1]).value) * 16 + HexNibble(s[2]).value) * 16 + HexNibble(s[3]).value)
  }

  /** The character after `\u`, and how many bytes spell it; half a surrogate pair is refused. */
  function UnicodeEscape(s: seq<byte>): (r: Option<(seq<byte>, nat)>)
    ensures r.Some? ==> 0 < r.value.1 <= |s|
  {
    if Unit(s).None? then None
    else
      var hi := Unit(s).value;
      if hi < 0xD800 || hi >= 0xE000 then Some((Utf8.EncodeChar(hi as char), 4))
      else if hi >= 0xDC00 || |s| < 10 || s[4] != BACKSLASH || s[5] != 'u' as int || Unit(s[6..]).None? then None
      else
        var lo := Unit(s[6..]).value;
        if lo < 0xDC00 || lo >= 0xE000 then None
        else Some((Utf8.EncodeChar((0x1_0000 + (hi - 0xD800) * 0x400 + (lo - 0xDC00)) as char), 10))
  }

  /** The byte a two-character escape stands for. */
  function Unescape(b: byte): Option<byte> {
    if b == QUOTE || b == BACKSLASH || b == '/' as int then Some(b)
    else if b == 'b' as int then Some(8)
    else if b == 'f' as int then Some(12)
    else if b == 'n' as int then Some(NEWLINE)
    else if b == 'r' as int then Some(RETURN)
    else if b == 't' as int then Some(TAB)
    else None
  }

  /** Section 7: the text of a string whose opening quote has been read, and what follows its closing quote. */
  function ReadString(s: seq<byte>): (r: Option<(seq<byte>, seq<byte>)>)
    ensures r.Some? ==> |r.value.1| < |s|
    decreases |s|
  {
    if s == [] then None
    else if s[0] == QUOTE then Some(([], s[1..]))
    else if s[0] < 0x20 then None
    else if s[0] != BACKSLASH then Prepend([s[0]], ReadString(s[1..]))
    else if |s| == 1 then None
    else if s[1] == 'u' as int then
      var escape := UnicodeEscape(s[2..]);
      if escape.None? then None else Prepend(escape.value.0, ReadString(s[2 + escape.value.1..]))
    else if Unescape(s[1]).None? then None
    else Prepend([Unescape(s[1]).value], ReadString(s[2..]))
  }

  function Prepend(head: seq<byte>, tail: Option<(seq<byte>, seq<byte>)>): Option<(seq<byte>, seq<byte>)> {
    if tail.None? then None else Some((head + tail.value.0, tail.value.1))
  }

  datatype Json = JString(text: seq<byte>) | JBool(b: bool)

  function ReadValue(s: seq<byte>): (r: Option<(Json, seq<byte>)>)
    ensures r.Some? ==> |r.value.1| < |s|
  {
    if s != [] && s[0] == QUOTE then
      var text := ReadString(s[1..]);
      if text.None? then None else Some((JString(text.value.0), text.value.1))
    else if |s| >= 4 && s[..4] == Ascii("true") then Some((JBool(true), s[4..]))
    else if |s| >= 5 && s[..5] == Ascii("false") then Some((JBool(false), s[5..]))
    else None
  }

  /** Section 4: members up to the end of the object, which must be the end of the text. */
  function ReadMembers(s: seq<byte>): Option<seq<(seq<byte>, Json)>>
    decreases |s|
  {
    if s == [] || s[0] != QUOTE then None
    else
      var key := ReadString(s[1..]);
      if key.None? || key.value.1 == [] || key.value.1[0] != COLON then None
      else
        var value := ReadValue(key.value.1[1..]);
        if value.None? || value.value.1 == [] then None
        else
          var member, rest := (key.value.0, value.value.0), value.value.1;
          if rest == [CLOSE] then Some([member])
          else if rest[0] != COMMA then None
          else
            var more := ReadMembers(rest[1..]);
            if more.None? then None else Some([member] + more.value)
  }

  /** An object of strings and truth values, without optional white space. */
  function ReadObject(s: seq<byte>): Option<seq<(seq<byte>, Json)>> {
    if s == [] || s[0] != OPEN then None
    else if s[1..] == [CLOSE] then Some([])
    else ReadMembers(s[1..])
  }

  // ---------- what a reader gets back ----------

  function KeptByte(b: byte): seq<byte> {
    if b >= 0x20 || b == NEWLINE || b == RETURN || b == TAB then [b] else []
  }

  /** The message without the control bytes that the escaper drops. */
  function Kept(message: seq<byte>): seq<byte> {
    if message == [] then [] else Kept(message[..|message| - 1]) + KeptByte(message[|message| - 1])
  }

  lemma ReadEscapedByte(b: byte, tail: seq<byte>)
    requires ReadString(tail).Some?
    ensures ReadString(EscapeByte(b) + tail) == Prepend(KeptByte(b), ReadString(tail))
  {
    var s := EscapeByte(b) + tail;
    if |EscapeByte(b)| == 2 {
      assert s[0] == BACKSLASH && s[2..] == tail;
      assert Unescape(s[1]) == Some(b);
    } else if |EscapeByte(b)| == 1 {
      assert s[0] == b && s[1..] == tail;
    } else {
      assert s == tail;
      assert [] + ReadString(tail).value.0 == ReadString(tail).value.0;
    }
  }

  /** However the message goes on, the reader takes back what was escaped and then reads on. */
  lemma {:induction false} ReadEscaped(message: seq<byte>, tail: seq<byte>, text: seq<byte>, rest: seq<byte>)
    requires ReadString(tail) == Some((text, rest))
    ensures ReadString(Escape(message) + tail) == Some((Kept(message) + text, rest))
  {
    hide ReadString, EscapeByte, KeptByte;
    if message == [] {
      assert Escape(message) + tail == tail;
      assert Kept(message) + text == text;
    } else {
      var front, b := message[..|message| - 1], message[|message| - 1];
      ReadEscapedByte(b, tail);
      ReadEscaped(front, EscapeByte(b) + tail, KeptByte(b) + text, rest);
      assert Escape(message) + tail == Escape(front) + (EscapeByte(b) + tail);
      assert Kept(message) + text == Kept(front) + (KeptByte(b) + text);
    }
  }

  function Quoted(text: seq<byte>): seq<byte> {
    [QUOTE] + Escape(text) + [QUOTE]
  }

  /** No byte of the message closes the string early. */
  lemma ReadQuoted(message: seq<byte>, rest: seq<byte>)
    ensures ReadString((Quoted(message) + rest)[1..]) == Some((Kept(message), rest))
  {
    hide Escape, Kept;
    assert ([QUOTE] + rest)[1..] == rest;
    ReadEscaped(message, [QUOTE] + rest, [], rest);
    assert (Quoted(message) + rest)[1..] == Escape(message) + ([QUOTE] + rest);
    assert Kept(message) + [] == Kept(message);
  }

  predicate IsPlain(s: seq<byte>) {
    forall i | 0 <= i < |s| :: s[i] >= 0x20 && s[i] != QUOTE && s[i] != BACKSLASH
  }

  lemma PlainLast(s: seq<byte>)
    requires IsPlain(s) && s != []
    ensures IsPlain(s[..|s| - 1])
    ensures EscapeByte(s[|s| - 1]) == KeptByte(s[|s| - 1]) == [s[|s| - 1]]
  {
  }

  lemma {:induction false} PlainUnchanged(s: seq<byte>)
    requires IsPlain(s)
    ensures Escape(s) == s && Kept(s) == s
  {
    hide EscapeByte, KeptByte, IsPlain;
    if s != [] {
      var front, b := s[..|s| - 1], s[|s| - 1];
      PlainLast(s);
      PlainUnchanged(front);
      assert s == front + [b];
    }
  }

  lemma ReadMember(key: seq<byte>, text: seq<byte>, value: Json, after: seq<byte>)
    requires after != [] && ReadValue(text + after) == Some((value, after))
    ensures var members := ReadMembers(Quoted(key) + [COLON] + text + after);
            && (after == [CLOSE] ==> members == Some([(Kept(key), value)]))
            && (after[0] == COMMA ==>
                  members == if ReadMembers(after[1..]).None? then None
                             else Some([(Kept(key), value)] + ReadMembers(after[1..]).value))
  {
    hide ReadString, ReadValue, Escape, Kept;
    var s := Quoted(key) + [COLON] + text + after;
    var rest := [COLON] + text + after;
    assert s == Quoted(key) + rest;
    ReadQuoted(key, rest);
    assert rest[1..] == text + after;
    assert s[0] == QUOTE;
  }

  lemma AsciiAppend(s: string, t: string)
    ensures Ascii(s + t) == Ascii(s) + Ascii(t)
  {
  }

  lemma AsciiPlain(s: string)
    requires forall i | 0 <= i < |s| :: 0x20 <= s[i] as int < 0x80 && s[i] != '\"' && s[i] != '\\'
    ensures IsPlain(Ascii(s))
  {
  }

  lemma ReadQuotedValue(text: seq<byte>, after: seq<byte>)
    ensures ReadValue(Quoted(text) + after) == Some((JString(Kept(text)), after))
  {
    hide ReadString, Escape, Kept;
    ReadQuoted(text, after);
  }

  lemma ReadFalse(after: seq<byte>)
    ensures ReadValue(Ascii("false") + after) == Some((JBool(false), after))
  {
  }

  /** The members of every report; what failed is the last one. */
  function Members(message: seq<byte>): seq<(seq<byte>, Json)> {
    [(Ascii("schema"), JString(Ascii("eud-map-error/1"))), (Ascii("ok"), JBool(false)), (Ascii("error"), JString(Kept(message)))]
  }

  function ErrorMember(message: seq<byte>): seq<byte> {
    Quoted(Ascii("error")) + [COLON] + Quoted(message) + [CLOSE]
  }

  function OkMember(after: seq<byte>): seq<byte> {
    Quoted(Ascii("ok")) + [COLON] + Ascii("false") + ([COMMA] + after)
  }

  function SchemaMember(after: seq<byte>): seq<byte> {
    Quoted(Ascii("schema")) + [COLON] + Quoted(Ascii("eud-map-error/1")) + ([COMMA] + after)
  }

  lemma FixedTextsArePlain()
    ensures forall s | s in ["schema", "eud-map-error/1", "ok", "error"] :: Escape(Ascii(s)) == Ascii(s) == Kept(Ascii(s))
  {
    hide Ascii, Escape, Kept, IsPlain;
    forall s | s in ["schema", "eud-map-error/1", "ok", "error"]
      ensures Escape(Ascii(s)) == Ascii(s) == Kept(Ascii(s))
    {
      AsciiPlain(s);
      PlainUnchanged(Ascii(s));
    }
  }

  function SchemaText(): seq<byte> {
    [OPEN, QUOTE] + Ascii("schema") + [QUOTE, COLON, QUOTE] + Ascii("eud-map-error/1")
  }

  function OkText(): seq<byte> {
    [QUOTE, COMMA, QUOTE] + Ascii("ok") + [QUOTE, COLON] + Ascii("false")
  }

  function ErrorText(): seq<byte> {
    [COMMA, QUOTE] + Ascii("error") + [QUOTE, COLON, QUOTE]
  }

  lemma SchemaPart()
    ensures Ascii("{\"schema\":\"eud-map-error/1") == SchemaText()
  {
  }

  lemma OkPart()
    ensures Ascii("\",\"ok\":false") == OkText()
  {
  }

  lemma ErrorPart()
    ensures Ascii(",\"error\":\"") == ErrorText()
  {
  }

  lemma PrefixText()
    ensures Ascii("{\"schema\":\"eud-map-error/1\",\"ok\":false,\"error\":\"") == SchemaText() + OkText() + ErrorText()
  {
    hide Ascii, SchemaText, OkText, ErrorText;
    SchemaPart();
    OkPart();
    ErrorPart();
    var a, b, c := "{\"schema\":\"eud-map-error/1", "\",\"ok\":false", ",\"error\":\"";
    AsciiAppend(a, b);
    AsciiAppend(a + b, c);
    assert a + b + c == "{\"schema\":\"eud-map-error/1\",\"ok\":false,\"error\":\"";
  }

  lemma ErrorTextShape(message: seq<byte>)
    ensures ErrorText() + Escape(message) + [QUOTE, CLOSE] == [COMMA] + ErrorMember(message)
  {
    hide Ascii, Escape;
    FixedTextsArePlain();
  }

  lemma OkTextShape(after: seq<byte>)
    ensures OkText() + ([COMMA] + after) == [QUOTE, COMMA] + OkMember(after)
  {
    hide Ascii, Escape;
    FixedTextsArePlain();
  }

  lemma SchemaTextShape(after: seq<byte>)
    ensures SchemaText() + ([QUOTE, COMMA] + after) == [OPEN] + SchemaMember(after)
  {
    hide Ascii, Escape;
    FixedTextsArePlain();
  }

  lemma ReportShape(message: seq<byte>)
    ensures Report(message) == [OPEN] + SchemaMember(OkMember(ErrorMember(message)))
  {
    assert Ascii("\"}") == [QUOTE, CLOSE];
    hide Ascii, Escape, SchemaText, OkText, ErrorText, ErrorMember, OkMember, SchemaMember;
    PrefixText();
    var tail := ErrorText() + Escape(message) + [QUOTE, CLOSE];
    assert Report(message) == SchemaText() + (OkText() + tail);
    ErrorTextShape(message);
    OkTextShape(ErrorMember(message));
    SchemaTextShape(OkMember(ErrorMember(message)));
  }

  /** The report is one JSON object, and its error field reads back as the message without dropped control bytes. */
  lemma ReportReadsBack(message: seq<byte>)
    ensures ReadObject(Report(message)) == Some(Members(message))
  {
    hide Ascii, Escape, Quoted, Kept, Report, ReadValue, ReadMembers;
    ReportShape(message);
    FixedTextsArePlain();
    var m3 := ErrorMember(message);
    ReadQuotedValue(message, [CLOSE]);
    ReadMember(Ascii("error"), Quoted(message), JString(Kept(message)), [CLOSE]);
    var m2 := OkMember(m3);
    ReadFalse([COMMA] + m3);
    ReadMember(Ascii("ok"), Ascii("false"), JBool(false), [COMMA] + m3);
    assert ([COMMA] + m3)[1..] == m3;
    var m1 := SchemaMember(m2);
    ReadQuotedValue(Ascii("eud-map-error/1"), [COMMA] + m2);
    ReadMember(Ascii("schema"), Quoted(Ascii("eud-map-error/1")), JString(Ascii("eud-map-error/1")), [COMMA] + m2);
    assert ([COMMA] + m2)[1..] == m2;
    assert ([OPEN] + m1)[1..] == m1;
    var members := Members(message);
    assert ReadMembers(m3) == Some([members[2]]);
    assert ReadMembers(m2) == Some([members[1]] + [members[2]]);
    assert ReadMembers(m1) == Some([members[0]] + ([members[1]] + [members[2]]));
    assert members == [members[0]] + ([members[1]] + [members[2]]);
  }

  /** Reports tell apart all messages that differ in more than dropped control bytes. */
  lemma ReportsApart(a: seq<byte>, b: seq<byte>)
    requires Report(a) == Report(b)
    ensures Kept(a) == Kept(b)
  {
    hide ReadObject, Report, Kept, Ascii;
    ReportReadsBack(a);
    ReportReadsBack(b);
    assert Members(a)[2] == Members(b)[2];
  }

  lemma {:induction false} KeptIsShorter(message: seq<byte>)
    ensures |Kept(message)| <= |message|
  {
    if message != [] {
      KeptIsShorter(message[..|message| - 1]);
    }
  }

  /** The message comes back whole exactly when it holds no control byte but newline, return and tab. */
  lemma {:induction false} KeptWholeIff(message: seq<byte>)
    ensures Kept(message) == message <==>
              forall i | 0 <= i < |message| :: message[i] >= 0x20 || message[i] in {NEWLINE, RETURN, TAB}
  {
    if message != [] {
      var front, b := message[..|message| - 1], message[|message| - 1];
      assert message == front + [b];
      KeptWholeIff(front);
      KeptIsShorter(front);
      if KeptByte(b) == [b] {
        assert Kept(message)[..|Kept(message)| - 1] == Kept(front);
        assert message[..|message| - 1] == front;
      }
    }
  }
}
