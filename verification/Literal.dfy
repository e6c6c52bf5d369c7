/** C string literals: how template text is quoted into the generated program, and
    what the C compiler reads back (sections 6.4.4.4 and 6.4.5 of ISO/IEC 9899:2011). */
module Literal {
  import opened Text

  /** The switch in write_escaped_string. */
  function EscapeChar(c: char): string {
    if c == '"' then "\\\""
    else if c == '\\' then "\\\\"
    else if c == '\n' then "\\n"
    else if c == '\r' then "\\r"
    else if c == '\t' then "\\t"
    else [c]
  }

  function EscapeText(s: string): string {
    if s == "" then "" else EscapeChar(s[0]) + EscapeText(s[1..])
  }

  function Quote(s: string): string {
    "\"" + EscapeText(s) + "\""
  }

  /** write_escaped_string, with the characters it writes to the file as its result. */
  method WriteEscapedString(s: string) returns (written: string)
    ensures written == Quote(s)
  {
    written := "\"";
    hide EscapeChar;
    for i := 0 to |s|
      invariant written + EscapeText(s[i..]) == "\"" + EscapeText(s)
    {
      assert s[i..][1..] == s[i + 1..];
      written := written + EscapeChar(s[i]);
    }
    written := written + "\"";
  }

  /** The simple escape sequences of section 6.4.4.4. */
  function SimpleEscape(c: char): Option<char> {
    match c
    case '\'' => Some('\'')
    case '"' => Some('"')
    case '?' => Some('?')
    case '\\' => Some('\\')
    case 'a' => Some(7 as char)
    case 'b' => Some(8 as char)
    case 'f' => Some(12 as char)
    case 'n' => Some('\n')
    case 'r' => Some('\r')
    case 't' => Some('\t')
    case 'v' => Some(11 as char)
    case _ => None
  }

  /** Read literal text up to the closing quote: the string it denotes, and the source
      text after the quote. A bare newline may not stand in a literal. */
  function DecodeText(t: string): (r: Option<(string, string)>)
    ensures r.Some? ==> |r.value.1| < |t|
  {
    if t == "" || t[0] == '\n' then None
    else if t[0] == '"' then Some(("", t[1..]))
    else if t[0] == '\\' then
      if |t| < 2 || SimpleEscape(t[1]).None? then None
      else PrependChar(SimpleEscape(t[1]).value, DecodeText(t[2..]))
    else PrependChar(t[0], DecodeText(t[1..]))
  }

  function PrependChar(c: char, r: Option<(string, string)>): Option<(string, string)> {
    if r.None? then None else Some(([c] + r.value.0, r.value.1))
  }

  function DecodeLiteral(t: string): Option<(string, string)> {
    if t != "" && t[0] == '"' then DecodeText(t[1..]) else None
  }

  lemma DecodeEscapedChar(c: char, tail: string)
    ensures DecodeText(EscapeChar(c) + tail) == PrependChar(c, DecodeText(tail))
  {
    var t := EscapeChar(c) + tail;
    assert t[|EscapeChar(c)|..] == tail;
    assert t[0] == EscapeChar(c)[0];
    assert |EscapeChar(c)| == 2 ==> t[1] == EscapeChar(c)[1];
  }

  lemma {:induction false} DecodeEscapedText(s: string, rest: string)
    ensures DecodeText(EscapeText(s) + "\"" + rest) == Some((s, rest))
  {
    hide EscapeChar;
    var t := EscapeText(s) + "\"" + rest;
    if s == "" {
      assert t[1..] == rest;
    } else {
      var tail := EscapeText(s[1..]) + "\"" + rest;
      assert t == EscapeChar(s[0]) + tail;
      DecodeEscapedChar(s[0], tail);
      DecodeEscapedText(s[1..], rest);
      assert s == [s[0]] + s[1..];
      hide EscapeText, DecodeText;
    }
  }

  /** The literal ends at its own closing quote and denotes the original text. */
  lemma LiteralRoundTrip(s: string, rest: string)
    ensures DecodeLiteral(Quote(s) + rest) == Some((s, rest))
  {
    assert (Quote(s) + rest)[1..] == EscapeText(s) + "\"" + rest;
    DecodeEscapedText(s, rest);
  }
}
