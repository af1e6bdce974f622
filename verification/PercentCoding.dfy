/** Percent-coding of query strings: `encodeURIComponent` of ECMAScript, and the query percent-encoding,
    form parser and form serializer of the WHATWG URL Standard (sections 1.3, 4.4, 5.1 and 5.2). */
module PercentCoding {
  import opened JsText
  import opened Utf8

  function HexDigit(n: int): char
    requires 0 <= n < 16
  {
    (if n < 10 then '0' as int + n else 'A' as int + n - 10) as char
  }

  predicate IsHex(c: char) {
    '0' <= c <= '9' || 'A' <= c <= 'F' || 'a' <= c <= 'f'
  }

  function HexValue(c: char): (n: int)
    requires IsHex(c)
    ensures 0 <= n < 16
  {
    if c <= '9' then c as int - '0' as int
    else if c <= 'F' then c as int - 'A' as int + 10
    else c as int - 'a' as int + 10
  }

  function EscapeByte(b: byte): string {
    ['%', HexDigit(b / 16), HexDigit(b % 16)]
  }

  function EscapeBytes(b: seq<byte>): string {
    if b == [] then [] else EscapeByte(b[0]) + EscapeBytes(b[1..])
  }

  predicate IsAlnum(c: char) {
    'a' <= c <= 'z' || 'A' <= c <= 'Z' || '0' <= c <= '9'
  }

  /** The characters that one of the three encoders writes unchanged. */
  datatype Encoder = Component | Form | Query {
    predicate Keeps(c: char) {
      match this
      case Component => IsAlnum(c) || '\'' <= c <= '*' || '-' <= c <= '.' || c == '_' || c == '!' || c == '~'
      case Form => IsAlnum(c) || c == '*' || '-' <= c <= '.' || c == '_'
      case Query => ' ' < c < '\U{7F}' && c != '"' && c != '#' && c != '<' && c != '>' && c != '\''
    }
  }

  function EncodeChar(e: Encoder, c: char): string {
    if e.Keeps(c) then [c]
    else if e.Form? && c == ' ' then "+"
    else EscapeBytes(CharBytes(c))
  }

  function Encode(e: Encoder, s: string): string {
    if s == [] then [] else EncodeChar(e, s[0]) + Encode(e, s[1..])
  }

  /** Does an escaped byte start here? */
  predicate AtEscape(s: string) {
    3 <= |s| && s[0] == '%' && IsHex(s[1]) && IsHex(s[2])
  }

  /** The bytes that a piece of a form-coded query stands for: `+` is a space, an escape is its byte, a
      stray `%` is itself. */
  function QueryBytes(s: string): seq<byte> {
    if s == [] then []
    else if AtEscape(s) then [HexValue(s[1]) * 16 + HexValue(s[2])] + QueryBytes(s[3..])
    else if s[0] == '+' then [0x20] + QueryBytes(s[1..])
    else CharBytes(s[0]) + QueryBytes(s[1..])
  }

  function FormDecode(s: string): string {
    Decode(QueryBytes(s))
  }

  /** One `name=value` piece; without `=` the value is empty. */
  function PieceName(piece: string): string {
    FormDecode(piece[..IndexOf(piece, '=')])
  }

  function PieceValue(piece: string): string {
    var i := IndexOf(piece, '=');
    if i < |piece| then FormDecode(piece[i + 1..]) else ""
  }

  /** `URLSearchParams.get`: the value of the first piece called `name`. */
  function SearchGet(query: string, name: string): Option<string>
    decreases |query|
  {
    var i := IndexOf(query, '&');
    var piece := query[..i];
    if piece != "" && PieceName(piece) == name then Some(PieceValue(piece))
    else if i < |query| then SearchGet(query[i + 1..], name)
    else None
  }

  // ---- which characters are escaped, and how ----

  /** What `encodeURIComponent` and the form serializer write unchanged. */
  lemma {:induction false} KeptCharacters(c: char)
    ensures Component.Keeps(c) <==> c in UPPER || c in LOWER || c in DIGITS || c in "-_.!~*'()"
    ensures Form.Keeps(c) <==> c in UPPER || c in LOWER || c in DIGITS || c in "*-._"
    ensures Query.Keeps(c) <==> '!' <= c <= '~' && c !in "\"#<>'"
  {
    UpperAre(c);
    LowerAre(c);
    DigitsAre(c);
    MarksAre(c);
  }

  lemma {:induction false} MarksAre(c: char)
    ensures c in "-_.!~*'()" <==> '\'' <= c <= '*' || '-' <= c <= '.' || c == '_' || c == '!' || c == '~'
    ensures c in "*-._" <==> c == '*' || '-' <= c <= '.' || c == '_'
    ensures c in "\"#<>'" <==> c == '"' || c == '#' || c == '<' || c == '>' || c == '\''
  {
    var marks, form, query := "-_.!~*'()", "*-._", "\"#<>'";
    assert marks == ['-', '_', '.', '!', '~', '*', '\'', '(', ')'];
    assert form == ['*', '-', '.', '_'] && query == ['"', '#', '<', '>', '\''];
  }

  /** An escaped byte is a percent sign and two upper-case hexadecimal digits (section 2.1 of RFC 3986). */
  lemma {:induction false} EscapeIsUpperCase(b: byte)
    ensures EscapeByte(b) == ['%', "0123456789ABCDEF"[b / 16], "0123456789ABCDEF"[b % 16]]
  {
    HexDigitIs(b / 16);
    HexDigitIs(b % 16);
  }

  lemma {:induction false} HexDigitIs(n: int)
    requires 0 <= n < 16
    ensures HexDigit(n) == "0123456789ABCDEF"[n]
  {
    var s := "0123456789ABCDEF";
    assert forall i :: 0 <= i < 10 ==> s[i] == ('0' as int + i) as char;
    assert forall i :: 10 <= i < 16 ==> s[i] == ('A' as int + i - 10) as char;
  }

  /** Digits of either case are read, with the same value. */
  lemma {:induction false} HexReadsBothCases(n: int)
    requires 0 <= n < 16
    ensures IsHex("0123456789ABCDEF"[n]) && HexValue("0123456789ABCDEF"[n]) == n
    ensures IsHex("0123456789abcdef"[n]) && HexValue("0123456789abcdef"[n]) == n
  {
    var upper, lower := "0123456789ABCDEF", "0123456789abcdef";
    assert forall i :: 0 <= i < 10 ==> upper[i] == lower[i] == ('0' as int + i) as char;
    assert forall i :: 10 <= i < 16 ==> upper[i] == ('A' as int + i - 10) as char;
    assert forall i :: 10 <= i < 16 ==> lower[i] == ('a' as int + i - 10) as char;
  }

  /** A name without an equals sign has the empty value, and a name that is not there has none. */
  lemma {:induction false} BareNameReads(name: string)
    requires name != "" && '&' !in name && '=' !in name
    ensures SearchGet(name, FormDecode(name)) == Some("")
    ensures SearchGet("", name) == None
  {
    IndexOfFirst(name, '&', "");
    IndexOfFirst(name, '=', "");
    assert name[..|name|] == name;
  }

  // ---- decoding undoes encoding ----

  lemma {:induction false} EscapeByteBytes(b: byte, rest: string)
    ensures QueryBytes(EscapeByte(b) + rest) == [b] + QueryBytes(rest)
  {
    var s := EscapeByte(b) + rest;
    assert s[0] == '%' && s[1] == HexDigit(b / 16) && s[2] == HexDigit(b % 16);
    assert s[3..] == rest;
  }

  lemma {:induction false} EscapeBytesBytes(b: seq<byte>, rest: string)
    ensures QueryBytes(EscapeBytes(b) + rest) == b + QueryBytes(rest)
  {
    if b == [] {
      assert EscapeBytes(b) + rest == rest;
    } else {
      assert EscapeBytes(b) + rest == EscapeByte(b[0]) + (EscapeBytes(b[1..]) + rest);
      EscapeByteBytes(b[0], EscapeBytes(b[1..]) + rest);
      EscapeBytesBytes(b[1..], rest);
      assert b == [b[0]] + b[1..];
    }
  }

  lemma {:induction false} EncodeCharBytes(e: Encoder, c: char, rest: string)
    requires !e.Query?
    ensures QueryBytes(EncodeChar(e, c) + rest) == CharBytes(c) + QueryBytes(rest)
  {
    hide CharBytes;
    EscapeBytesBytes(CharBytes(c), rest);
    if e.Keeps(c) || (e.Form? && c == ' ') {
      assert (EncodeChar(e, c) + rest)[1..] == rest;
    }
  }

  /** The form parser gets back exactly what `encodeURIComponent` or the form serializer was given. */
  lemma {:induction false} FormDecodeEncode(e: Encoder, s: string)
    requires !e.Query?
    ensures FormDecode(Encode(e, s)) == s
  {
    if s != [] {
      EncodeCharBytes(e, s[0], Encode(e, s[1..]));
      DecodeChar(s[0], QueryBytes(Encode(e, s[1..])));
      FormDecodeEncode(e, s[1..]);
      assert s == [s[0]] + s[1..];
    }
  }

  // ---- the URL parser's own encoding of a query does not change what the query means ----

  lemma {:induction false} HexIsKept(c: char)
    requires IsHex(c)
    ensures Query.Keeps(c)
  {}

  lemma {:induction false} EncodeQueryFirst(s: string)
    requires s != []
    ensures Query.Keeps(s[0]) ==> Encode(Query, s) == [s[0]] + Encode(Query, s[1..])
    ensures !Query.Keeps(s[0]) ==> Encode(Query, s) != [] && Encode(Query, s)[0] == '%'
  {
    if !Query.Keeps(s[0]) {
      var b := CharBytes(s[0]);
      assert EscapeBytes(b) == EscapeByte(b[0]) + EscapeBytes(b[1..]);
      assert (EscapeBytes(b) + Encode(Query, s[1..]))[0] == EscapeByte(b[0])[0];
    }
  }

  lemma {:induction false} EncodeQueryHex(s: string)
    requires s != []
    ensures Encode(Query, s) != []
    ensures IsHex(s[0]) ==> Encode(Query, s) == [s[0]] + Encode(Query, s[1..])
    ensures !IsHex(s[0]) ==> !IsHex(Encode(Query, s)[0])
  {
    EncodeQueryFirst(s);
    if IsHex(s[0]) { HexIsKept(s[0]); }
  }

  /** Query encoding neither breaks an escape nor completes a broken one. */
  lemma {:induction false} EncodeQueryEscape(s: string)
    requires s != [] && s[0] == '%'
    ensures AtEscape(s) <==> AtEscape(Encode(Query, s))
    ensures AtEscape(s) ==> Encode(Query, s)[1..3] == s[1..3] && Encode(Query, s)[3..] == Encode(Query, s[3..])
  {
    hide EncodeChar;
    var w := Encode(Query, s);
    EncodeQueryFirst(s);
    assert Query.Keeps('%');
    assert w == ['%'] + Encode(Query, s[1..]);
    if 1 < |s| {
      EncodeQueryHex(s[1..]);
      if IsHex(s[1]) {
        assert s[1..][1..] == s[2..];
        assert w == ['%', s[1]] + Encode(Query, s[2..]);
        if 2 < |s| {
          EncodeQueryHex(s[2..]);
          if IsHex(s[2]) {
            assert s[2..][1..] == s[3..];
            assert w == ['%', s[1], s[2]] + Encode(Query, s[3..]);
          }
        }
      }
    }
  }

  /** What the first character of a query contributes, when no escape starts there. */
  lemma {:induction false} QueryBytesFirst(s: string)
    requires s != [] && !AtEscape(s)
    ensures QueryBytes(s) == (if s[0] == '+' then [0x20] else CharBytes(s[0])) + QueryBytes(s[1..])
  {}

  lemma {:induction false} QueryBytesKept(s: string)
    requires s != [] && !AtEscape(s) && Query.Keeps(s[0])
    ensures QueryBytes(Encode(Query, s))
         == (if s[0] == '+' then [0x20] else CharBytes(s[0])) + QueryBytes(Encode(Query, s[1..]))
  {
    hide QueryBytes, CharBytes, Encode, IsHex;
    var w := Encode(Query, s);
    EncodeQueryFirst(s);
    assert w[0] == s[0] && w[1..] == Encode(Query, s[1..]);
    if s[0] == '%' { EncodeQueryEscape(s); }
    QueryBytesFirst(w);
  }

  lemma {:induction false} QueryBytesEscaped(s: string)
    requires s != [] && !Query.Keeps(s[0])
    ensures QueryBytes(Encode(Query, s)) == CharBytes(s[0]) + QueryBytes(Encode(Query, s[1..]))
  {
    hide QueryBytes, CharBytes;
    EscapeBytesBytes(CharBytes(s[0]), Encode(Query, s[1..]));
  }

  lemma {:induction false} QueryBytesAtEscape(s: string)
    requires AtEscape(s)
    ensures QueryBytes(s) == [HexValue(s[1]) * 16 + HexValue(s[2])] + QueryBytes(s[3..])
  {}

  lemma {:induction false} QueryBytesEncodeQuery(s: string)
    ensures QueryBytes(Encode(Query, s)) == QueryBytes(s)
    decreases |s|
  {
    hide QueryBytes, Encode, CharBytes, HexValue, IsHex;
    if s == [] {
      NoBytes();
    } else if AtEscape(s) {
      EncodeQueryEscape(s);
      QueryBytesEncodeQuery(s[3..]);
      var w := Encode(Query, s);
      assert w[1] == w[1..3][0] == s[1..3][0] == s[1] && w[2] == w[1..3][1] == s[1..3][1] == s[2];
      QueryBytesAtEscape(s);
      QueryBytesAtEscape(w);
    } else {
      QueryBytesEncodeQuery(s[1..]);
      QueryBytesFirst(s);
      if Query.Keeps(s[0]) {
        QueryBytesKept(s);
      } else {
        QueryBytesEscaped(s);
      }
    }
  }

  lemma {:induction false} NoBytes()
    ensures QueryBytes(Encode(Query, [])) == QueryBytes([])
  {}

  // ---- lengths ----

  /** A decoded query never has more characters than the raw one. */
  lemma {:induction false} DecodedNoLonger(s: string)
    ensures |FormDecode(s)| <= |s|
    decreases |s|
  {
    if s == [] {
    } else if AtEscape(s) {
      DecodedNoLonger(s[3..]);
      DecodePrependByte(HexValue(s[1]) * 16 + HexValue(s[2]), QueryBytes(s[3..]));
    } else {
      DecodedNoLonger(s[1..]);
      if s[0] == '+' {
        DecodePrependByte(0x20, QueryBytes(s[1..]));
      } else {
        DecodeChar(s[0], QueryBytes(s[1..]));
      }
    }
  }

  lemma {:induction false} EscapeBeforeSeparator(a: string, c: char, b: string)
    requires a != [] && (c == '&' || c == '=')
    ensures AtEscape(a + [c] + b) <==> AtEscape(a)
    ensures (a + [c] + b)[0] == a[0]
    ensures AtEscape(a) ==> (a + [c] + b)[1] == a[1] && (a + [c] + b)[2] == a[2]
  {
    var w := a + [c] + b;
    assert |a| <= 2 ==> w[|a|] == c;
    assert forall i :: 0 <= i < |a| ==> w[i] == a[i];
  }

  lemma {:induction false} QueryBytesSplit(a: string, c: char, b: string)
    requires c == '&' || c == '='
    ensures QueryBytes(a + [c] + b) == QueryBytes(a) + [c as int] + QueryBytes(b)
    decreases |a|
  {
    hide IsHex, CharBytes, HexValue;
    var w := a + [c] + b;
    if a == [] {
      assert w[1..] == b;
    } else {
      EscapeBeforeSeparator(a, c, b);
      var k := if AtEscape(a) then 3 else 1;
      assert w[k..] == a[k..] + [c] + b;
      QueryBytesSplit(a[k..], c, b);
    }
  }

  /** Decoding splits at the separators of a query. */
  lemma {:induction false} FormDecodeSplit(a: string, c: char, b: string)
    requires c == '&' || c == '='
    ensures FormDecode(a + [c] + b) == FormDecode(a) + [c] + FormDecode(b)
  {
    QueryBytesSplit(a, c, b);
    DecodeSplitsAtAscii(QueryBytes(a), c as int, QueryBytes(b));
  }

  /** A parameter's value is shorter than the query it was read from, both decoded, by the length of its
      name at least. */
  lemma {:induction false} ValueShorterThanQuery(query: string, name: string)
    requires SearchGet(query, name).Some?
    ensures |SearchGet(query, name).value| + |name| <= |FormDecode(query)|
    decreases |query|
  {
    hide FormDecode;
    var i := IndexOf(query, '&');
    var piece := query[..i];
    if i < |query| {
      assert query == piece + ['&'] + query[i + 1..];
      FormDecodeSplit(piece, '&', query[i + 1..]);
    } else {
      assert piece == query;
    }
    if piece != "" && PieceName(piece) == name {
      var j := IndexOf(piece, '=');
      if j < |piece| {
        assert piece == piece[..j] + ['='] + piece[j + 1..];
        FormDecodeSplit(piece[..j], '=', piece[j + 1..]);
      } else {
        assert piece[..j] == piece;
      }
    } else {
      ValueShorterThanQuery(query[i + 1..], name);
    }
  }
}
