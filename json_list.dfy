/**
 * The text format of the `permissions` and `features` columns: a JSON array
 * of strings (RFC 8259, section 5 for arrays and section 7 for strings).
 *
 * `Encode` writes what `Array#to_json` writes for an array of strings in a
 * Rails application (ActiveSupport's encoder over the json gem, with
 * `escape_html_entities_in_json` at its default, on): no white space, `"`
 * and `\` escaped, the control characters U+0000..U+001F escaped (`\b \f
 * \n \r \t` in their short forms, the others as `\u00XX`), `<`, `>`, `&`,
 * U+2028 and U+2029 escaped as `\uXXXX`, hex digits in lower case, and
 * every other character verbatim.
 *
 * `Decode` accepts what `JSON.parse` accepts when the result is an array of
 * strings: white space around every token, every escape of RFC 8259, section 7, and
 * `\uXXXX` pairs that form a UTF-16 surrogate pair. Anything else is a
 * decode failure.
 */
module JsonList {
  import opened Wrappers
  import Text

  // ---------------------------------------------------------------- encoder

  /** The lower-case hexadecimal digit for `n`. */
  function HexDigit(n: int): (c: char)
    requires 0 <= n < 16
  {
    if n < 10 then ('0' as int + n) as char else ('a' as int + n - 10) as char
  }

  /** `\uXXXX` for the code unit `n`. */
  function UnicodeEscape(n: int): (r: string)
    requires 0 <= n < 0x10000
    ensures |r| == 6 && r[0] == '\\' && r[1] == 'u'
  {
    ['\\', 'u', HexDigit(n / 16 / 16 / 16), HexDigit(n / 16 / 16 % 16), HexDigit(n / 16 % 16), HexDigit(n % 16)]
  }

  /** The characters `to_json` writes as `\uXXXX`: the control characters
      without a short form, the HTML-significant `<`, `>`, `&`, and the
      line and paragraph separators. */
  predicate NeedsUnicodeEscape(c: char) {
    c as int < 0x20 || c == '<' || c == '>' || c == '&' || c as int == 0x2028 || c as int == 0x2029
  }

  /** One character as it appears inside a JSON string written by `to_json`. */
  function EscapeChar(c: char): (r: string)
    ensures 1 <= |r| && r[0] != '"'
  {
    if c == '"' then ['\\', '"']
    else if c == '\\' then ['\\', '\\']
    else if c as int == 0x08 then ['\\', 'b']
    else if c as int == 0x0C then ['\\', 'f']
    else if c == '\n' then ['\\', 'n']
    else if c == '\r' then ['\\', 'r']
    else if c == '\t' then ['\\', 't']
    else if NeedsUnicodeEscape(c) then UnicodeEscape(c as int)
    else [c]
  }

  function EscapeString(s: string): string {
    if s == [] then [] else EscapeChar(s[0]) + EscapeString(s[1..])
  }

  /** A string as a JSON string literal. */
  function Quote(s: string): string {
    ['"'] + EscapeString(s) + ['"']
  }

  /** The elements of the array, separated by commas. */
  function JoinQuoted(xs: seq<string>): string {
    if xs == [] then []
    else if |xs| == 1 then Quote(xs[0])
    else Quote(xs[0]) + [','] + JoinQuoted(xs[1..])
  }

  /** `xs.to_json` for an array of strings. */
  function Encode(xs: seq<string>): (text: string)
    ensures |text| >= 2 && text[0] == '[' && text[|text| - 1] == ']'
  {
    ['['] + JoinQuoted(xs) + [']']
  }

  // ----------------------------------------------------------------- parser

  /** Insignificant white space between tokens (RFC 8259, section 2). */
  predicate IsJsonSpace(c: char) {
    c == ' ' || c == '\t' || c == '\n' || c == '\r'
  }

  /** What is left of `s` after its leading white space. */
  function SkipSpace(s: string): (r: string)
    ensures |r| <= |s|
    ensures r == [] || !IsJsonSpace(r[0])
  {
    if s != [] && IsJsonSpace(s[0]) then SkipSpace(s[1..]) else s
  }

  /** The value of a hexadecimal digit, either case. */
  function HexValue(c: char): (r: Option<int>)
    ensures r.Some? ==> 0 <= r.value < 16
  {
    if '0' <= c <= '9' then Some(c as int - '0' as int)
    else if 'a' <= c <= 'f' then Some(c as int - 'a' as int + 10)
    else if 'A' <= c <= 'F' then Some(c as int - 'A' as int + 10)
    else None
  }

  /** The code unit written by the four hexadecimal digits at the start of `s`. */
  function Hex4(s: string): (r: Option<int>)
    ensures r.Some? ==> |s| >= 4 && 0 <= r.value < 0x10000
  {
    if |s| < 4 then None
    else match (HexValue(s[0]), HexValue(s[1]), HexValue(s[2]), HexValue(s[3]))
      case (Some(a), Some(b), Some(c), Some(d)) => Some(((a * 16 + b) * 16 + c) * 16 + d)
      case _ => None
  }

  predicate IsHighSurrogate(u: int) { 0xD800 <= u <= 0xDBFF }
  predicate IsLowSurrogate(u: int) { 0xDC00 <= u <= 0xDFFF }

  /** The character written by `\uXXXX` (and, for a high surrogate, the
      `\uXXXX` of its low half) at the start of `s`, just after the `u`. */
  function ParseUnicodeEscape(s: string): (r: Option<(char, string)>)
    ensures r.Some? ==> |r.value.1| < |s|
  {
    match Hex4(s)
    case None => None
    case Some(u) =>
      if IsLowSurrogate(u) then None
      else if IsHighSurrogate(u) then
        var t := s[4..];
        if |t| < 2 || t[0] != '\\' || t[1] != 'u' then None
        else match Hex4(t[2..])
          case None => None
          case Some(v) =>
            if !IsLowSurrogate(v) then None
            else Some(((0x10000 + (u - 0xD800) * 0x400 + (v - 0xDC00)) as char, t[6..]))
      else Some((u as char, s[4..]))
  }

  /** The character written by the escape at the start of `s`, just after the backslash. */
  function ParseEscape(s: string): (r: Option<(char, string)>)
    ensures r.Some? ==> |r.value.1| < |s|
  {
    if s == [] then None
    else if s[0] == '"' then Some(('"', s[1..]))
    else if s[0] == '\\' then Some(('\\', s[1..]))
    else if s[0] == '/' then Some(('/', s[1..]))
    else if s[0] == 'b' then Some((0x08 as char, s[1..]))
    else if s[0] == 'f' then Some((0x0C as char, s[1..]))
    else if s[0] == 'n' then Some(('\n', s[1..]))
    else if s[0] == 'r' then Some(('\r', s[1..]))
    else if s[0] == 't' then Some(('\t', s[1..]))
    else if s[0] == 'u' then ParseUnicodeEscape(s[1..])
    else None
  }

  /** One character of a string literal's body: an escape, or any character
      but `"`, `\` and the control characters. */
  function ParseChar(s: string): (r: Option<(char, string)>)
    requires s != [] && s[0] != '"'
    ensures r.Some? ==> |r.value.1| < |s|
  {
    if s[0] == '\\' then ParseEscape(s[1..])
    else if s[0] as int < 0x20 then None
    else Some((s[0], s[1..]))
  }

  /** The body of a string literal up to and including its closing quote;
      `s` starts just after the opening quote. */
  function ParseStringBody(s: string): (r: Option<(string, string)>)
    ensures r.Some? ==> |r.value.1| < |s|
    decreases |s|
  {
    if s == [] then None
    else if s[0] == '"' then Some(([], s[1..]))
    else match ParseChar(s)
      case None => None
      case Some((c, rest)) =>
        match ParseStringBody(rest)
        case None => None
        case Some((t, rest')) => Some(([c] + t, rest'))
  }

  /** One or more array elements and the closing bracket; `s` starts where an
      element is expected. */
  function ParseElements(s: string): (r: Option<(seq<string>, string)>)
    ensures r.Some? ==> |r.value.1| < |s| && r.value.0 != []
    decreases |s|
  {
    var s1 := SkipSpace(s);
    if s1 == [] || s1[0] != '"' then None
    else match ParseStringBody(s1[1..])
      case None => None
      case Some((x, rest)) =>
        var s2 := SkipSpace(rest);
        if s2 == [] then None
        else if s2[0] == ']' then Some(([x], s2[1..]))
        else if s2[0] == ',' then
          match ParseElements(s2[1..])
          case None => None
          case Some((xs, rest')) => Some(([x] + xs, rest'))
        else None
  }

  /** An array of strings at the start of `s`, and what follows it. */
  function ParseArray(s: string): (r: Option<(seq<string>, string)>)
    ensures r.Some? ==> |r.value.1| < |s|
  {
    var s1 := SkipSpace(s);
    if s1 == [] || s1[0] != '[' then None
    else
      var s2 := SkipSpace(s1[1..]);
      if s2 != [] && s2[0] == ']' then Some(([], s2[1..]))
      else ParseElements(s2)
  }

  /** `JSON.parse(text)` when the text is an array of strings, and None
      for every text that is not. */
  function Decode(text: string): (r: Option<seq<string>>)
    ensures r.Some? ==> SkipSpace(text) != [] && SkipSpace(text)[0] == '['
  {
    match ParseArray(text)
    case None => None
    case Some((xs, rest)) => if SkipSpace(rest) == [] then Some(xs) else None
  }

  // ----------------------------------------------------------------- reader

  /**
   * `permissions_array` / `features_array`: the stored text (None is SQL
   * NULL) as a list. Nil or blank text gives [], so does text that does not
   * parse; the reader never fails.
   */
  function ReadList(stored: Option<string>): (r: seq<string>)
    ensures r != [] ==> stored.Some? && Decode(stored.value) == Some(r)
    ensures stored.Some? && !Text.IsBlank(stored.value) && Decode(stored.value).Some?
            ==> r == Decode(stored.value).value
    ensures stored.None? ==> r == []
    ensures stored.Some? ==> r == Decode(stored.value).GetOr([])
  {
    match stored
    case None => []
    case Some(text) =>
      if Text.IsBlank(text) then
        BlankNeverDecodes(text);
        []
      else Decode(text).GetOr([])
  }

  // ----------------------------------------------------------------- proofs

  lemma HexDigitValue(n: int)
    requires 0 <= n < 16
    ensures HexValue(HexDigit(n)) == Some(n)
  {
  }

  /** Text that does not start with white space is left as it is. */
  lemma SkipNoSpace(s: string)
    requires s == [] || !IsJsonSpace(s[0])
    ensures SkipSpace(s) == s
  {
  }

  /** SkipSpace removes a prefix made only of white space. */
  lemma {:induction false} SkipSpaceIsSuffix(s: string)
    ensures var r := SkipSpace(s);
            r == s[|s| - |r|..] && forall i :: 0 <= i < |s| - |r| ==> IsJsonSpace(s[i])
  {
    if s != [] && IsJsonSpace(s[0]) {
      SkipSpaceIsSuffix(s[1..]);
    }
  }

  /** The four digits of `\uXXXX` are read back as the code unit. */
  lemma UnicodeEscapeDigits(n: int, tail: string)
    requires 0 <= n < 0x10000
    ensures Hex4(UnicodeEscape(n)[2..] + tail) == Some(n)
  {
    var q1 := n / 16;
    var q2 := q1 / 16;
    var q3 := q2 / 16;
    HexDigitValue(q3);
    HexDigitValue(q2 % 16);
    HexDigitValue(q1 % 16);
    HexDigitValue(n % 16);
    var s := UnicodeEscape(n)[2..] + tail;
    assert s[..4] == [HexDigit(q3), HexDigit(q2 % 16), HexDigit(q1 % 16), HexDigit(n % 16)];
    assert ((q3 * 16 + q2 % 16) * 16 + q1 % 16) * 16 + n % 16 == n;
  }

  /** Every character `EscapeChar` writes is read back by `ParseChar`. */
  lemma EscapeCharRoundTrip(c: char, tail: string)
    ensures ParseChar(EscapeChar(c) + tail) == Some((c, tail))
  {
    var e := EscapeChar(c);
    var s := e + tail;
    if c == '"' || c == '\\' || c as int == 0x08 || c as int == 0x0C || c == '\n' || c == '\r' || c == '\t' {
      assert s[1..][1..] == tail;
    } else if NeedsUnicodeEscape(c) {
      UnicodeEscapeDigits(c as int, tail);
      assert s[1..][1..] == UnicodeEscape(c as int)[2..] + tail;
      assert s[1..][1..][4..] == tail;
    } else {
      assert s[1..] == tail;
    }
  }

  /** An escaped character followed by a readable body reads as one more character. */
  lemma StringBodyStep(c: char, rest: string)
    requires ParseStringBody(rest).Some?
    ensures ParseStringBody(EscapeChar(c) + rest)
            == Some(([c] + ParseStringBody(rest).value.0, ParseStringBody(rest).value.1))
  {
    EscapeCharRoundTrip(c, rest);
  }

  /** The body written by `EscapeString` and a closing quote is read back as the string. */
  lemma {:induction false} StringBodyRoundTrip(s: string, tail: string)
    ensures ParseStringBody(EscapeString(s) + ['"'] + tail) == Some((s, tail))
  {
    if s == [] {
      assert EscapeString(s) + ['"'] + tail == ['"'] + tail;
    } else {
      var rest := EscapeString(s[1..]) + ['"'] + tail;
      assert EscapeString(s) + ['"'] + tail == EscapeChar(s[0]) + rest;
      StringBodyRoundTrip(s[1..], tail);
      StringBodyStep(s[0], rest);
      assert s == [s[0]] + s[1..];
    }
  }

  /** A string literal written by `Quote` is read back, whatever follows it. */
  lemma QuoteRoundTrip(x: string, after: string)
    ensures var text := Quote(x) + after;
            text != [] && text[0] == '"' && ParseStringBody(text[1..]) == Some((x, after))
  {
    var text := Quote(x) + after;
    assert text == ['"'] + (EscapeString(x) + ['"'] + after);
    StringBodyRoundTrip(x, after);
  }

  /** The text after one element: the closing bracket, or a comma and the next elements. */
  function AfterElement(xs: seq<string>, tail: string): string
    requires xs != []
  {
    if |xs| == 1 then [']'] + tail else [','] + JoinQuoted(xs[1..]) + [']'] + tail
  }

  lemma SplitFirstElement(xs: seq<string>, tail: string)
    requires xs != []
    ensures JoinQuoted(xs) + [']'] + tail == Quote(xs[0]) + AfterElement(xs, tail)
  {
  }

  /** The last element and the closing bracket read as a one-element list. */
  lemma LastElementStep(x: string, tail: string)
    ensures ParseElements(Quote(x) + [']'] + tail) == Some(([x], tail))
  {
    var after := [']'] + tail;
    var text := Quote(x) + after;
    QuoteRoundTrip(x, after);
    SkipNoSpace(text);
    SkipNoSpace(after);
    assert after[1..] == tail;
    assert text == Quote(x) + [']'] + tail;
    assert ParseStringBody(text[1..]) == Some((x, after));
  }

  /** An element, a comma and readable further elements read as one more element. */
  lemma NextElementStep(x: string, rest: string)
    requires ParseElements(rest).Some?
    ensures ParseElements(Quote(x) + [','] + rest)
            == Some(([x] + ParseElements(rest).value.0, ParseElements(rest).value.1))
  {
    var after := [','] + rest;
    var text := Quote(x) + after;
    QuoteRoundTrip(x, after);
    SkipNoSpace(text);
    SkipNoSpace(after);
    assert after[1..] == rest;
    assert text == Quote(x) + [','] + rest;
    assert ParseStringBody(text[1..]) == Some((x, after));
  }

  /** A non-empty element list, the closing bracket and any tail are read back. */
  lemma {:induction false} ElementsRoundTrip(xs: seq<string>, tail: string)
    requires xs != []
    ensures ParseElements(JoinQuoted(xs) + [']'] + tail) == Some((xs, tail))
  {
    if |xs| == 1 {
      LastElementStep(xs[0], tail);
      assert xs == [xs[0]];
    } else {
      var rest := JoinQuoted(xs[1..]) + [']'] + tail;
      assert JoinQuoted(xs) + [']'] + tail == Quote(xs[0]) + [','] + rest;
      ElementsRoundTrip(xs[1..], tail);
      NextElementStep(xs[0], rest);
      assert xs == [xs[0]] + xs[1..];
    }
  }

  /** The empty list's text is read back as an empty array. */
  lemma EmptyArrayRoundTrip()
    ensures ParseArray(Encode([])) == Some(([], []))
  {
    var text := Encode([]);
    assert text == ['[', ']'];
    SkipNoSpace(text);
    assert text[1..] == [']'];
    SkipNoSpace(text[1..]);
  }

  /** A non-empty list's text is read back as that array, with nothing after it. */
  lemma NonEmptyArrayRoundTrip(xs: seq<string>)
    requires xs != []
    ensures ParseArray(Encode(xs)) == Some((xs, []))
  {
    var text := Encode(xs);
    SkipNoSpace(text);
    assert text[1..] == JoinQuoted(xs) + [']'] + [];
    SplitFirstElement(xs, []);
    SkipNoSpace(text[1..]);
    ElementsRoundTrip(xs, []);
  }

  /** Decoding the text `to_json` writes gives the list back. */
  lemma RoundTrip(xs: seq<string>)
    ensures Decode(Encode(xs)) == Some(xs)
  {
    if xs == [] {
      EmptyArrayRoundTrip();
    } else {
      NonEmptyArrayRoundTrip(xs);
    }
    SkipNoSpace([]);
  }

  /** Blank text never decodes: white space is not an array. So the reader's
      blank test only spares the parser, it never changes the result. */
  lemma BlankNeverDecodes(text: string)
    requires Text.IsBlank(text)
    ensures Decode(text) == None
  {
    var s1 := SkipSpace(text);
    SkipSpaceIsSuffix(text);
    if s1 != [] {
      assert s1[0] == text[|text| - |s1|];
      assert Text.IsSpace(s1[0]);
    }
  }

  /** The list readers return what the list writers stored. */
  lemma ReadAfterWrite(xs: seq<string>)
    ensures ReadList(Some(Encode(xs))) == xs
  {
    RoundTrip(xs);
    var text := Encode(xs);
    assert !Text.IsSpace(text[0]);
  }

  /** Text that is not JSON at all is read as no entries. */
  lemma NotJsonReadsEmpty()
    ensures ReadList(Some("MyText")) == []
  {
    SkipNoSpace("MyText");
  }

  /** A truncated array is read as no entries. */
  lemma TruncatedArrayReadsEmpty()
    ensures ReadList(Some("[\"a\",")) == []
  {
    var bad := "[\"a\",";
    assert bad == ['['] + (Quote("a") + [',']);
    QuoteRoundTrip("a", [',']);
    SkipNoSpace(bad);
    SkipNoSpace(bad[1..]);
    SkipNoSpace([',']);
    SkipNoSpace([]);
  }

  /** NULL, empty and blank columns are read as no entries. */
  lemma MissingReadsEmpty()
    ensures ReadList(None) == [] && ReadList(Some("")) == [] && ReadList(Some(" \n")) == []
  {
  }

  /** A character `to_json` copies into the string literal as it is. */
  predicate WrittenVerbatim(c: char) {
    c != '"' && c != '\\' && !NeedsUnicodeEscape(c)
  }

  /** A string with no character to escape is written verbatim. */
  lemma {:induction false} VerbatimString(s: string)
    requires forall i :: 0 <= i < |s| ==> WrittenVerbatim(s[i])
    ensures EscapeString(s) == s
  {
    if s != [] {
      VerbatimString(s[1..]);
      assert s == [s[0]] + s[1..];
    }
  }

  /** The seed data's permission list as `to_json` writes it. */
  lemma EncodeSeedExample()
    ensures Encode(["网络访问", "存储权限"]) == "[\"网络访问\",\"存储权限\"]"
  {
    VerbatimString("网络访问");
    VerbatimString("存储权限");
    assert JoinQuoted(["网络访问", "存储权限"]) == Quote("网络访问") + [','] + Quote("存储权限");
  }

  /** A quote inside a string is escaped, and an empty list is `[]`. */
  lemma EncodeQuoteExample()
    ensures Encode(["b\"c"]) == "[\"b\\\"c\"]"
    ensures Encode([]) == "[]"
  {
    assert EscapeString("b\"c") == "b\\\"c";
  }

  /** The HTML-significant characters are written as `\uXXXX`. */
  lemma HtmlCharsEscaped()
    ensures EscapeChar('<') == "\\u003c" && EscapeChar('&') == "\\u0026" && EscapeChar('>') == "\\u003e"
  {
    assert UnicodeEscape(0x3C) == ['\\', 'u', '0', '0', '3', 'c'];
    assert UnicodeEscape(0x26) == ['\\', 'u', '0', '0', '2', '6'];
    assert UnicodeEscape(0x3E) == ['\\', 'u', '0', '0', '3', 'e'];
  }

  lemma EncodeHtmlExample()
    ensures Encode(["<&>"]) == "[\"\\u003c\\u0026\\u003e\"]"
  {
    HtmlCharsEscaped();
    assert EscapeString("<&>") == EscapeChar('<') + EscapeChar('&') + EscapeChar('>');
    assert JoinQuoted(["<&>"]) == ['"'] + EscapeString("<&>") + ['"'];
  }
}
