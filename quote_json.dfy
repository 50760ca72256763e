/**
  The text saveQuotes stores under the `quotes` key,
  `JSON.stringify(quotes)`, and the reading of it that loadQuotes performs
  with `JSON.parse`.

  Encode follows JSON.stringify (section 25.5.2 of ECMA-262) for an array of
  `{ text, category }` objects created with the keys in that order: no
  whitespace, "," between elements, and every string quoted the way
  QuoteJSONString quotes it (`"` and `\` escaped, the short forms \b \t \n
  \f \r, every other code point below U+0020 as a lower-case \u00XX escape,
  everything else written as is).

  Decode reads exactly the texts Encode can produce and refuses everything
  else (see DecodeEncode and EncodeDecode).
 */
module QuoteJson {
  import opened Quotes

  // ---------------------------------------------------------------------
  // Writing
  // ---------------------------------------------------------------------

  function HexDigit(d: nat): (h: char)
    requires d < 16
  {
    if d < 10 then ('0' as int + d) as char else ('a' as int + d - 10) as char
  }

  /** The escape letter of the code points JSON.stringify writes in short
      form, if c is one of them. */
  function ShortEscape(c: char): Option<char> {
    if c == '"' then Some('"')
    else if c == '\\' then Some('\\')
    else if c as int == 0x08 then Some('b')
    else if c as int == 0x0C then Some('f')
    else if c == '\n' then Some('n')
    else if c == '\r' then Some('r')
    else if c == '\t' then Some('t')
    else None
  }

  /** How one code point of a string is written inside its quotes. */
  function EscapeChar(c: char): string {
    match ShortEscape(c)
    case Some(e) => ['\\', e]
    case None =>
      if (c as int) < 0x20 then ['\\', 'u', '0', '0', HexDigit(c as int / 16), HexDigit(c as int % 16)]
      else [c]
  }

  function EscapeAll(s: string): string {
    if s == [] then [] else EscapeChar(s[0]) + EscapeAll(s[1..])
  }

  function EncodeString(s: string): string {
    "\"" + EscapeAll(s) + "\""
  }

  function EncodeQuote(q: Quote): string {
    "{\"text\":" + EncodeString(q.text) + ",\"category\":" + EncodeString(q.category) + "}"
  }

  /** The elements after the first, each preceded by ",". */
  function EncodeRest(qs: seq<Quote>): string {
    if qs == [] then [] else "," + EncodeQuote(qs[0]) + EncodeRest(qs[1..])
  }

  /** `JSON.stringify(quotes)` */
  function Encode(qs: seq<Quote>): (text: string)
    ensures text != [] && text[0] == '['
    ensures text == "[]" <==> qs == []
  {
    if qs == [] then "[]" else "[" + EncodeQuote(qs[0]) + EncodeRest(qs[1..]) + "]"
  }

  // ---------------------------------------------------------------------
  // Reading
  // ---------------------------------------------------------------------

  /** A value read from the front of a text, and the text left after it. */
  datatype Parsed<T> = Fail | Ok(value: T, rest: string)

  function HexValue(h: char): Option<nat> {
    if '0' <= h <= '9' then Some(h as int - '0' as int)
    else if 'a' <= h <= 'f' then Some(h as int - 'a' as int + 10)
    else None
  }

  /** Reads the escape after a backslash. */
  function Unescape(s: string): (p: Parsed<char>)
    ensures p.Ok? ==> |p.rest| < |s|
  {
    if s == [] then Fail
    else if s[0] == '"' then Ok('"', s[1..])
    else if s[0] == '\\' then Ok('\\', s[1..])
    else if s[0] == 'b' then Ok(0x08 as char, s[1..])
    else if s[0] == 'f' then Ok(0x0C as char, s[1..])
    else if s[0] == 'n' then Ok('\n', s[1..])
    else if s[0] == 'r' then Ok('\r', s[1..])
    else if s[0] == 't' then Ok('\t', s[1..])
    else if s[0] == 'u' && |s| >= 5 && s[1] == '0' && s[2] == '0' then
      match (HexValue(s[3]), HexValue(s[4]))
      case (Some(hi), Some(lo)) =>
        var n := 16 * hi + lo;
        if n < 0x20 && ShortEscape(n as char).None? then Ok(n as char, s[5..]) else Fail
      case _ => Fail
    else Fail
  }

  /** Reads one character of a string's contents, escaped or not; a bare
      control character is not allowed there. */
  function ParseChar(s: string): (p: Parsed<char>)
    requires s != []
    ensures p.Ok? ==> |p.rest| < |s|
  {
    if s[0] == '\\' then Unescape(s[1..])
    else if s[0] == '"' || (s[0] as int) < 0x20 then Fail
    else Ok(s[0], s[1..])
  }

  /** Reads the characters of a string up to and including its closing
      quote. */
  function ParseStringBody(s: string): (p: Parsed<string>)
    ensures p.Ok? ==> |p.rest| < |s|
    decreases |s|
  {
    if s == [] then Fail
    else if s[0] == '"' then Ok([], s[1..])
    else
      match ParseChar(s)
      case Fail => Fail
      case Ok(c, rest) =>
        match ParseStringBody(rest)
        case Fail => Fail
        case Ok(t, rest') => Ok([c] + t, rest')
  }

  /** Removes the literal `lit` from the front of s. */
  function Expect(lit: string, s: string): (p: Option<string>)
    ensures p.Some? ==> s == lit + p.value
  {
    if |lit| <= |s| && s[..|lit|] == lit then
      assert s == lit + s[|lit|..];
      Some(s[|lit|..])
    else None
  }

  function ParseString(s: string): (p: Parsed<string>)
    ensures p.Ok? ==> |p.rest| < |s|
  {
    match Expect("\"", s)
    case None => Fail
    case Some(r) => ParseStringBody(r)
  }

  function ParseQuote(s: string): (p: Parsed<Quote>)
    ensures p.Ok? ==> |p.rest| < |s|
  {
    match Expect("{\"text\":", s)
    case None => Fail
    case Some(r1) =>
      match ParseString(r1)
      case Fail => Fail
      case Ok(text, r2) =>
        match Expect(",\"category\":", r2)
        case None => Fail
        case Some(r3) =>
          match ParseString(r3)
          case Fail => Fail
          case Ok(category, r4) =>
            match Expect("}", r4)
            case None => Fail
            case Some(r5) => Ok(Quote(text, category), r5)
  }

  /** Reads ",element" repeatedly, up to and including the closing "]". */
  function ParseRest(s: string): (p: Parsed<seq<Quote>>)
    ensures p.Ok? ==> |p.rest| < |s|
    decreases |s|
  {
    if s == [] then Fail
    else if s[0] == ']' then Ok([], s[1..])
    else if s[0] == ',' then
      match ParseQuote(s[1..])
      case Fail => Fail
      case Ok(q, r) =>
        match ParseRest(r)
        case Fail => Fail
        case Ok(qs, r') => Ok([q] + qs, r')
    else Fail
  }

  /** The list loadQuotes gets back from the stored text, or None where
      `JSON.parse` would not give back a list of quotes in the stored
      form. */
  function Decode(text: string): (r: Option<seq<Quote>>)
    ensures r.Some? ==> |text| >= 2 && text[0] == '['
    ensures r == Some([]) <==> text == "[]"
  {
    match Expect("[", text)
    case None => None
    case Some(r) =>
      if r == "]" then Some([])
      else
        match ParseQuote(r)
        case Fail => None
        case Ok(q, r1) =>
          match ParseRest(r1)
          case Fail => None
          case Ok(qs, r2) => if r2 == [] then Some([q] + qs) else None
  }

  // ---------------------------------------------------------------------
  // Saving then loading gives the list back
  // ---------------------------------------------------------------------

  lemma UnescapeEscape(c: char, rest: string)
    requires EscapeChar(c) != [c]
    ensures EscapeChar(c)[0] == '\\'
    ensures Unescape(EscapeChar(c)[1..] + rest) == Ok(c, rest)
  {
    var e := EscapeChar(c)[1..] + rest;
    if ShortEscape(c).None? {
      var n := c as int;
      assert e[0] == 'u' && e[1] == '0' && e[2] == '0';
      assert HexValue(e[3]) == Some(n / 16) && HexValue(e[4]) == Some(n % 16);
      assert e[5..] == rest;
    }
  }

  /** One written code point reads back as that code point, and never as
      the closing quote. */
  lemma ParseEscapedChar(c: char, rest: string)
    ensures EscapeChar(c) + rest != [] && (EscapeChar(c) + rest)[0] != '"'
    ensures ParseChar(EscapeChar(c) + rest) == Ok(c, rest)
  {
    var s := EscapeChar(c) + rest;
    if EscapeChar(c) == [c] {
      assert s[0] == c && s[1..] == rest;
    } else {
      UnescapeEscape(c, rest);
      assert s[1..] == EscapeChar(c)[1..] + rest;
    }
  }

  lemma EscapeAllCons(c: char, t: string)
    ensures EscapeAll([c] + t) == EscapeChar(c) + EscapeAll(t)
  {
    assert ([c] + t)[0] == c && ([c] + t)[1..] == t;
  }

  lemma {:induction false} ParseStringBodyEscaped(s: string, rest: string)
    ensures ParseStringBody(EscapeAll(s) + "\"" + rest) == Ok(s, rest)
  {
    if s == [] {
      assert EscapeAll(s) + "\"" + rest == "\"" + rest;
    } else {
      var c := s[0];
      var tail := EscapeAll(s[1..]) + "\"" + rest;
      assert s == [c] + s[1..];
      EscapeAllCons(c, s[1..]);
      assert EscapeAll(s) + "\"" + rest == EscapeChar(c) + tail;
      ParseEscapedChar(c, tail);
      ParseStringBodyEscaped(s[1..], rest);
    }
  }

  lemma ParseEncodedString(s: string, rest: string)
    ensures ParseString(EncodeString(s) + rest) == Ok(s, rest)
  {
    assert EncodeString(s) + rest == "\"" + (EscapeAll(s) + "\"" + rest);
    ParseStringBodyEscaped(s, rest);
  }

  lemma ExpectLiteral(lit: string, rest: string)
    ensures Expect(lit, lit + rest) == Some(rest)
  {
    assert (lit + rest)[..|lit|] == lit;
    assert (lit + rest)[|lit|..] == rest;
  }

  lemma ParseEncodedQuote(q: Quote, rest: string)
    ensures ParseQuote(EncodeQuote(q) + rest) == Ok(q, rest)
  {
    var r4 := "}" + rest;
    var r3 := EncodeString(q.category) + r4;
    var r2 := ",\"category\":" + r3;
    var r1 := EncodeString(q.text) + r2;
    EncodeQuoteSplit(q, rest);
    ExpectLiteral("{\"text\":", r1);
    ParseEncodedString(q.text, r2);
    ExpectLiteral(",\"category\":", r3);
    ParseEncodedString(q.category, r4);
    ExpectLiteral("}", rest);
  }

  lemma EncodeQuoteSplit(q: Quote, rest: string)
    ensures EncodeQuote(q) + rest ==
      "{\"text\":" + (EncodeString(q.text) + (",\"category\":" + (EncodeString(q.category) + ("}" + rest))))
  {
  }

  lemma {:induction false} ParseEncodedRest(qs: seq<Quote>, rest: string)
    ensures ParseRest(EncodeRest(qs) + "]" + rest) == Ok(qs, rest)
  {
    if qs == [] {
      assert EncodeRest(qs) + "]" + rest == "]" + rest;
    } else {
      var after := EncodeRest(qs[1..]) + "]" + rest;
      assert EncodeRest(qs) == "," + EncodeQuote(qs[0]) + EncodeRest(qs[1..]);
      Regroup(",", EncodeQuote(qs[0]), EncodeRest(qs[1..]), "]", rest);
      ParseEncodedQuote(qs[0], after);
      ParseEncodedRest(qs[1..], rest);
      ParseRestCons(EncodeQuote(qs[0]) + after, qs[0], after, qs[1..], rest);
      assert [qs[0]] + qs[1..] == qs;
    }
  }

  lemma ParseRestCons(t: string, q: Quote, r: string, qs: seq<Quote>, rest: string)
    requires ParseQuote(t) == Ok(q, r) && ParseRest(r) == Ok(qs, rest)
    ensures ParseRest("," + t) == Ok([q] + qs, rest)
  {
    assert ("," + t)[1..] == t;
  }

  /** Whatever saveQuotes stores, loadQuotes reads back as the same list. */
  lemma DecodeEncode(qs: seq<Quote>)
    ensures Decode(Encode(qs)) == Some(qs)
  {
    if qs == [] {
      ExpectLiteral("[", "]");
    } else {
      var e := EncodeQuote(qs[0]);
      var after := EncodeRest(qs[1..]) + "]";
      EncodeSplit(qs);
      ParseEncodedQuote(qs[0], after);
      ParseEncodedRest(qs[1..], []);
      assert after + [] == after;
      DecodeNonEmpty(e + after, qs[0], after, qs[1..]);
      assert [qs[0]] + qs[1..] == qs;
    }
  }

  lemma EncodeSplit(qs: seq<Quote>)
    requires qs != []
    ensures Encode(qs) == "[" + (EncodeQuote(qs[0]) + (EncodeRest(qs[1..]) + "]"))
  {
  }

  lemma DecodeNonEmpty(r: string, q: Quote, r1: string, qs: seq<Quote>)
    requires ParseQuote(r) == Ok(q, r1) && ParseRest(r1) == Ok(qs, [])
    ensures Decode("[" + r) == Some([q] + qs)
  {
    ExpectLiteral("[", r);
    assert |r| > 1 by {
      assert Expect("{\"text\":", r).Some?;
    }
  }

  // ---------------------------------------------------------------------
  // Decode accepts nothing but what Encode writes
  // ---------------------------------------------------------------------

  lemma EscapeUnescaped(s: string)
    requires Unescape(s).Ok?
    ensures s == EscapeChar(Unescape(s).value)[1..] + Unescape(s).rest
  {
    if s[0] == 'u' {
      var hi := HexValue(s[3]).value;
      var lo := HexValue(s[4]).value;
      var n := 16 * hi + lo;
      assert n / 16 == hi && n % 16 == lo;
      assert HexDigit(hi) == s[3] && HexDigit(lo) == s[4];
      assert s == s[..5] + s[5..];
    } else {
      assert s == [s[0]] + s[1..];
    }
  }

  /** A character that reads is the one written there. */
  lemma EscapedParsedChar(s: string)
    requires s != [] && ParseChar(s).Ok?
    ensures s == EscapeChar(ParseChar(s).value) + ParseChar(s).rest
  {
    if s[0] == '\\' {
      EscapeUnescaped(s[1..]);
      assert s == [s[0]] + s[1..];
    } else {
      assert ShortEscape(s[0]).None? && s[0] as int >= 0x20;
      assert EscapeChar(s[0]) == [s[0]];
      assert s == [s[0]] + s[1..];
    }
  }

  lemma {:induction false} EscapedParsedStringBody(s: string)
    requires ParseStringBody(s).Ok?
    ensures s == EscapeAll(ParseStringBody(s).value) + "\"" + ParseStringBody(s).rest
    decreases |s|
  {
    var p := ParseStringBody(s);
    if s[0] == '"' {
      assert s == "\"" + s[1..];
    } else {
      var pc := ParseChar(s);
      EscapedParsedChar(s);
      EscapedParsedStringBody(pc.rest);
      var t := ParseStringBody(pc.rest).value;
      assert p.value == [pc.value] + t;
      EscapeAllCons(pc.value, t);
      assert s == EscapeChar(pc.value) + (EscapeAll(t) + "\"" + p.rest);
    }
  }

  lemma EncodedParsedString(s: string)
    requires ParseString(s).Ok?
    ensures s == EncodeString(ParseString(s).value) + ParseString(s).rest
  {
    var r := Expect("\"", s).value;
    var p := ParseStringBody(r);
    EscapedParsedStringBody(r);
    assert s == "\"" + (EscapeAll(p.value) + "\"" + p.rest);
  }

  lemma Regroup(a: string, b: string, c: string, d: string, e: string)
    ensures a + (b + (c + d + e)) == a + b + c + d + e
  {
  }

  lemma EncodedParsedQuote(s: string)
    requires ParseQuote(s).Ok?
    ensures s == EncodeQuote(ParseQuote(s).value) + ParseQuote(s).rest
  {
    var r1 := Expect("{\"text\":", s).value;
    EncodedParsedString(r1);
    var r2 := ParseString(r1).rest;
    var r3 := Expect(",\"category\":", r2).value;
    EncodedParsedString(r3);
    var r4 := ParseString(r3).rest;
    var r5 := Expect("}", r4).value;
    EncodeQuoteSplit(ParseQuote(s).value, r5);
  }

  lemma {:induction false} EncodedParsedRest(s: string)
    requires ParseRest(s).Ok?
    ensures s == EncodeRest(ParseRest(s).value) + "]" + ParseRest(s).rest
    decreases |s|
  {
    var p := ParseRest(s);
    if s[0] == ']' {
      assert s == "]" + s[1..];
    } else {
      var pq := ParseQuote(s[1..]);
      EncodedParsedQuote(s[1..]);
      EncodedParsedRest(pq.rest);
      var qs := ParseRest(pq.rest).value;
      assert p.value == [pq.value] + qs;
      assert p.value[0] == pq.value && p.value[1..] == qs;
      var e := EncodeQuote(pq.value);
      assert EncodeRest(p.value) == "," + e + EncodeRest(qs);
      assert s == "," + (e + (EncodeRest(qs) + "]" + p.rest)) by {
        assert s == [s[0]] + s[1..];
      }
      Regroup(",", e, EncodeRest(qs), "]", p.rest);
    }
  }

  /** The stored text of any list Decode accepts is exactly what
      JSON.stringify writes for that list: Encode and Decode are inverse
      to each other. */
  lemma EncodeDecode(text: string)
    requires Decode(text).Some?
    ensures text == Encode(Decode(text).value)
  {
    var r := Expect("[", text).value;
    if r != "]" {
      var pq := ParseQuote(r);
      var pr := ParseRest(pq.rest);
      EncodedParsedQuote(r);
      EncodedParsedRest(pq.rest);
      var all := Decode(text).value;
      assert all == [pq.value] + pr.value;
      assert all[0] == pq.value && all[1..] == pr.value;
      assert pr.rest == [];
      var e := EncodeQuote(pq.value);
      var er := EncodeRest(pr.value);
      assert pq.rest == er + "]";
      assert text == "[" + (e + (er + "]"));
      Regroup("[", e, er, "]", []);
    }
  }
}
