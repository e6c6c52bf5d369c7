/** The HTML escaper and the output buffer of the generated programs. */
module Escape {
  import opened Text

  const SIZE_T: nat := 0x1_0000_0000_0000_0000

  function Entity(c: char): (e: string)
    ensures 1 <= |e| <= 6
    ensures NUL != c ==> NUL !in e
  {
    match c
    case '<' => "&lt;"
    case '>' => "&gt;"
    case '&' => "&amp;"
    case '"' => "&quot;"
    case '\'' => "&#x27;"
    case _ => [c]
  }

  function Escaped(s: string): (r: string)
    ensures |r| <= 6 * |s|
    ensures NUL !in s ==> NUL !in r
  {
    if s == "" then "" else Escaped(s[..|s| - 1]) + Entity(s[|s| - 1])
  }

  /** The C string that starts at the beginning of a char array. */
  function CString(a: seq<char>): string {
    if a == [] || a[0] == NUL then "" else [a[0]] + CString(a[1..])
  }

  lemma {:induction false} CStringIs(a: seq<char>, s: string)
    requires |s| < |a| && s == a[..|s|] && a[|s|] == NUL && NUL !in s
    ensures CString(a) == s
  {
    if s != "" {
      CStringIs(a[1..], s[1..]);
    }
  }

  lemma CStringStep(a: seq<char>, n: nat)
    requires n <= |a|
    ensures n < |a| && a[n] != NUL ==> CString(a[n..]) == [a[n]] + CString(a[n + 1..])
    ensures n == |a| || a[n] == NUL ==> CString(a[n..]) == ""
  {
    if n < |a| {
      assert a[n..][1..] == a[n + 1..];
    }
  }

  /** The C string in a char array. */
  method ReadCString(a: array<char>) returns (s: string)
    ensures s == CString(a[..]) && |s| <= a.Length && NUL !in s
  {
    hide CString;
    var n := 0;
    assert a[..][0..] == a[..];
    while n < a.Length && a[n] != NUL
      invariant n <= a.Length && NUL !in a[..n]
      invariant a[..n] + CString(a[..][n..]) == CString(a[..])
    {
      CStringStep(a[..], n);
      assert a[..n + 1] == a[..n] + [a[n]];
      n := n + 1;
    }
    CStringStep(a[..], n);
    s := a[..n];
    assert s + "" == s;
  }

  /** strcpy(dst + pos, src) */
  method StrCpy(dst: array<char>, pos: nat, src: string)
    requires pos + |src| < dst.Length
    modifies dst
    ensures dst[..pos] == old(dst[..pos]) && dst[pos..pos + |src|] == src && dst[pos + |src|] == NUL
    ensures forall k :: pos + |src| < k < dst.Length ==> dst[k] == old(dst[k])
  {
    for i := 0 to |src|
      invariant dst[..pos] == old(dst[..pos])
      invariant dst[pos..pos + i] == src[..i]
      invariant forall k :: pos + |src| < k < dst.Length ==> dst[k] == old(dst[k])
    {
      dst[pos + i] := src[i];
    }
    dst[pos + |src|] := NUL;
  }

  /** The switch of cweb_escape_html: write what stands for c at position pos. */
  method WriteEscaped(output: array<char>, pos: nat, c: char) returns (next: nat)
    requires pos + 6 < output.Length
    modifies output
    ensures next == pos + |Entity(c)|
    ensures output[..next] == old(output[..pos]) + Entity(c)
  {
    ghost var before := output[..pos];
    match c {
      case '<' =>
        StrCpy(output, pos, "&lt;");
        next := pos + 4;
      case '>' =>
        StrCpy(output, pos, "&gt;");
        next := pos + 4;
      case '&' =>
        StrCpy(output, pos, "&amp;");
        next := pos + 5;
      case '"' =>
        StrCpy(output, pos, "&quot;");
        next := pos + 6;
      case '\'' =>
        StrCpy(output, pos, "&#x27;");
        next := pos + 6;
      case _ =>
        output[pos] := c;
        next := pos + 1;
    }
    assert output[..pos] == before && output[pos..next] == Entity(c);
    assert output[..next] == output[..pos] + output[pos..next];
  }

  /** cweb_escape_html. The loop guard compares with `output_len - 6`, which wraps
      around for the empty input; for every other input the guard never ends the
      loop before the input does. */
  method EscapeHtml(input: string) returns (output: array<char>)
    requires NoNul(input) && 6 * |input| + 1 < SIZE_T
    ensures fresh(output) && output.Length == 6 * |input| + 1
    ensures |Escaped(input)| < output.Length
    ensures output[..|Escaped(input)|] == Escaped(input) && output[|Escaped(input)|] == NUL
  {
    hide Entity;
    var outputLen := |input| * 6 + 1;
    output := new char[outputLen];
    var limit := (outputLen - 6) % SIZE_T;
    assert input != "" ==> limit == outputLen - 6;
    var outPos := 0;
    var i := 0;
    while i < |input| && outPos < limit
      invariant i <= |input|
      invariant outPos == |Escaped(input[..i])|
      invariant output[..outPos] == Escaped(input[..i])
    {
      assert input[..i + 1][..i] == input[..i];
      outPos := WriteEscaped(output, outPos, input[i]);
      i := i + 1;
    }
    assert input[..i] == input;
    output[outPos] := NUL;
  }

  // ---------------------------------------------------------------- round trip

  /** Replace the five entities, left to right. */
  function Unescape(s: string): string {
    if s == "" then ""
    else if At(s, 0, "&lt;") then ['<'] + Unescape(s[4..])
    else if At(s, 0, "&gt;") then ['>'] + Unescape(s[4..])
    else if At(s, 0, "&amp;") then ['&'] + Unescape(s[5..])
    else if At(s, 0, "&quot;") then ['"'] + Unescape(s[6..])
    else if At(s, 0, "&#x27;") then ['\''] + Unescape(s[6..])
    else [s[0]] + Unescape(s[1..])
  }

  lemma {:induction false} EscapedConcat(a: string, b: string)
    ensures Escaped(a + b) == Escaped(a) + Escaped(b)
  {
    hide Entity;
    if b == "" {
      assert a + b == a;
    } else {
      var n := |b| - 1;
      assert (a + b)[..|a + b| - 1] == a + b[..n];
      EscapedConcat(a, b[..n]);
      assert (a + b)[|a + b| - 1] == b[n];
      assert Escaped(b) == Escaped(b[..n]) + Entity(b[n]);
      assert Escaped(a + b) == (Escaped(a) + Escaped(b[..n])) + Entity(b[n]);
      hide Escaped;
    }
  }

  lemma FirstTwo(s: string, pat: string)
    requires 2 <= |pat|
    ensures At(s, 0, pat) ==> s[0] == pat[0] && s[1] == pat[1]
  {
    if At(s, 0, pat) {
      AtChar(s, 0, pat, 0);
      AtChar(s, 0, pat, 1);
    }
  }

  lemma UnescapeEntity(c: char, rest: string)
    ensures Unescape(Entity(c) + rest) == [c] + Unescape(rest)
  {
    var s := Entity(c) + rest;
    assert s[|Entity(c)|..] == rest;
    assert At(s, 0, Entity(c)) by {
      hide Entity;
      assert s[0..|Entity(c)|] == Entity(c);
    }
    FirstTwo(s, "&lt;");
    FirstTwo(s, "&gt;");
    FirstTwo(s, "&amp;");
    FirstTwo(s, "&quot;");
    FirstTwo(s, "&#x27;");
    if |Entity(c)| > 1 {
      FirstTwo(s, Entity(c));
    }
    hide At;
  }

  /** Escaping loses nothing. */
  lemma {:induction false} EscapeRoundTrip(s: string)
    ensures Unescape(Escaped(s)) == s
    decreases |s|
  {
    if s != "" {
      assert s == s[..1] + s[1..];
      EscapedConcat(s[..1], s[1..]);
      assert s[..1][..0] == "" && Escaped(s[..1]) == Entity(s[0]);
      UnescapeEntity(s[0], Escaped(s[1..]));
      EscapeRoundTrip(s[1..]);
    }
  }

  /** The output can stand in element text and in quoted attribute values. */
  lemma {:induction false} EscapedIsInert(s: string)
    ensures forall c :: c in Escaped(s) ==> c !in "<>\"'"
  {
    if s != "" {
      EscapedIsInert(s[..|s| - 1]);
      var c := s[|s| - 1];
      assert forall k :: 0 <= k < |Entity(c)| ==> Entity(c)[k] !in "<>\"'";
    }
  }
}
