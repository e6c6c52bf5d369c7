/** The JavaScript minifier: its automaton as a function of the text still to be read,
    and the loop over mode flags that runs it. */
module MinifyJs {
  import opened Text

  predicate IsIdent(c: char) {
    IsAlnum(c) || c == '_' || c == '$'
  }

  /** kJsPunctuation */
  predicate IsPunct(c: char) {
    c in "()[]{},;:?+-*%&|^!=<>~/."
  }

  /** A `/` after significant character c starts a regular expression. */
  predicate IsRegexPrefix(c: char) {
    c == NUL || c in "(=:,?!&|^%+-~{}[;"
  }

  predicate IsQuote(c: char) {
    c == '\'' || c == '"' || c == '`'
  }

  predicate IsNewline(c: char) {
    c == '\n' || c == '\r'
  }

  datatype Mode = Code | Str(quote: char) | Regex | LineComment | BlockComment

  /** Printing a separator after output that ends in `last`. */
  predicate Lacks(last: Option<char>, sep: char) {
    last != Some(sep)
  }

  /** The output for the text s in mode m, after significant character sig and output
      that ends in `last`, before the final trim. */
  function Minified(s: string, m: Mode, sig: char, last: Option<char>): (r: string)
    ensures |r| <= |s|
    decreases |s|
  {
    if s == "" then ""
    else
      match m
      case LineComment => InLine(s, sig, last)
      case BlockComment => InBlock(s, sig, last)
      case Str(quote) => InString(s, quote, sig)
      case Regex => InRegex(s, sig)
      case Code => InCode(s, sig, last)
  }

  function InLine(s: string, sig: char, last: Option<char>): (r: string)
    requires s != ""
    ensures |r| <= |s|
    decreases |s|, 0
  {
    if !IsNewline(s[0]) then Minified(s[1..], LineComment, sig, last)
    else if last.Some? && Lacks(last, '\n') then "\n" + Minified(s[1..], Code, sig, Some('\n'))
    else Minified(s[1..], Code, sig, last)
  }

  function InBlock(s: string, sig: char, last: Option<char>): (r: string)
    requires s != ""
    ensures |r| <= |s|
    decreases |s|, 0
  {
    if !(s[0] == '*' && CharAt(s, 1) == '/') then Minified(s[1..], BlockComment, sig, last)
    else if !(IsIdent(sig) && IsIdent(NextVisible(s[2..]))) then Minified(s[2..], Code, sig, last)
    else if Lacks(last, ' ') then " " + Minified(s[2..], Code, ' ', Some(' '))
    else Minified(s[2..], Code, ' ', last)
  }

  function InString(s: string, quote: char, sig: char): (r: string)
    requires s != ""
    ensures |r| <= |s|
    decreases |s|, 0
  {
    if s[0] == '\\' && |s| > 1 then s[..2] + Minified(s[2..], Str(quote), sig, Some(s[1]))
    else if s[0] == quote then [s[0]] + Minified(s[1..], Code, quote, Some(s[0]))
    else [s[0]] + Minified(s[1..], Str(quote), sig, Some(s[0]))
  }

  function InRegex(s: string, sig: char): (r: string)
    requires s != ""
    ensures |r| <= |s|
    decreases |s|, 0
  {
    if s[0] == '\\' && |s| > 1 then s[..2] + Minified(s[2..], Regex, sig, Some(s[1]))
    else if s[0] == '/' then [s[0]] + Minified(s[1..], Code, '/', Some(s[0]))
    else [s[0]] + Minified(s[1..], Regex, sig, Some(s[0]))
  }

  function InCode(s: string, sig: char, last: Option<char>): (r: string)
    requires s != ""
    ensures |r| <= |s|
    decreases |s|, 0
  {
    if IsQuote(s[0]) then [s[0]] + Minified(s[1..], Str(s[0]), sig, Some(s[0]))
    else if s[0] == '/' && CharAt(s, 1) == '/' then Minified(s[2..], LineComment, sig, last)
    else if s[0] == '/' && CharAt(s, 1) == '*' then Minified(s[2..], BlockComment, sig, last)
    else if s[0] == '/' && IsRegexPrefix(sig) then [s[0]] + Minified(s[1..], Regex, NUL, Some(s[0]))
    else if IsSpace(s[0]) then
      var rest := TrimLeft(s);
      if DropsSpace(sig, last, NextVisible(s)) then Minified(rest, Code, sig, last)
      else " " + Minified(rest, Code, ' ', Some(' '))
    else [s[0]] + Minified(s[1..], Code, s[0], Some(s[0]))
  }

  predicate DropsSpace(sig: char, last: Option<char>, next: char) {
    last == None || IsPunct(sig) || IsPunct(next)
  }

  /** The last loop: fewer kinds of spaces than IsSpace. */
  predicate IsBlank(c: char) {
    c == ' ' || c == '\n' || c == '\r' || c == '\t'
  }

  function TrimEnd(s: string): string {
    if s != "" && IsBlank(s[|s| - 1]) then TrimEnd(s[..|s| - 1]) else s
  }

  /** What cweb_minify_js returns. */
  function Output(s: string): string {
    TrimEnd(Minified(s, Code, NUL, None))
  }

  // --------------------------------------------------------------------- the loop

  function LastOf(done: string): Option<char> {
    if done == "" then None else Some(done[|done| - 1])
  }

  /** The output so far and the output of the text still to be read. */
  function Whole(done: string, input: string, i: nat, m: Mode, sig: char): string {
    done + Minified(From(input, i), m, sig, LastOf(done))
  }

  lemma CharIs(input: string, i: nat)
    requires i < |input|
    ensures From(input, i) != "" && CharAt(From(input, i), 0) == input[i]
    ensures CharAt(From(input, i), 1) == if i + 1 < |input| then input[i + 1] else NUL
    ensures |From(input, i)| > 1 <==> i + 1 < |input|
    ensures i + 1 < |input| ==>
              && From(input, i)[2..] == From(input, i + 2)
              && From(input, i)[..2] == [input[i], input[i + 1]]
    ensures From(input, i)[1..] == From(input, i + 1)
  {}

  lemma Grows(done: string, t: string, rest: string)
    ensures t != "" ==> LastOf(done + t) == Some(t[|t| - 1])
    ensures done + (t + rest) == done + t + rest
  {}

  /** Printing t and going on is going on after t. */
  lemma Printed(done: string, t: string, input: string, i: nat, m: Mode, sig: char)
    requires t != ""
    ensures Whole(done + t, input, i, m, sig) == done + (t + Minified(From(input, i), m, sig, Some(t[|t| - 1])))
  {
    hide Minified, From;
    Grows(done, t, Minified(From(input, i), m, sig, Some(t[|t| - 1])));
  }

  lemma LineStep(done: string, input: string, i: nat, sig: char)
    requires i < |input|
    ensures Whole(done, input, i, LineComment, sig)
            == if !IsNewline(input[i]) then Whole(done, input, i + 1, LineComment, sig)
               else if done != "" && done[|done| - 1] != '\n' then Whole(done + "\n", input, i + 1, Code, sig)
               else Whole(done, input, i + 1, Code, sig)
  {
    hide IsNewline;
    CharIs(input, i);
    Printed(done, "\n", input, i + 1, Code, sig);
    var s := From(input, i);
    assert Minified(s, LineComment, sig, LastOf(done)) == InLine(s, sig, LastOf(done));
    hide From, Minified;
  }

  lemma BlockStep(done: string, input: string, i: nat, sig: char)
    requires i < |input|
    ensures Whole(done, input, i, BlockComment, sig)
            == if !(input[i] == '*' && i + 1 < |input| && input[i + 1] == '/')
               then Whole(done, input, i + 1, BlockComment, sig)
               else if !(IsIdent(sig) && IsIdent(NextVisible(From(input, i + 2))))
                 then Whole(done, input, i + 2, Code, sig)
               else if done == "" || done[|done| - 1] != ' ' then Whole(done + " ", input, i + 2, Code, ' ')
               else Whole(done, input, i + 2, Code, ' ')
  {
    hide IsIdent, NextVisible;
    CharIs(input, i);
    Printed(done, " ", input, i + 2, Code, ' ');
    var s := From(input, i);
    assert Minified(s, BlockComment, sig, LastOf(done)) == InBlock(s, sig, LastOf(done));
    hide From, Minified;
  }

  lemma StringStep(done: string, input: string, i: nat, quote: char, sig: char)
    requires i < |input|
    ensures Whole(done, input, i, Str(quote), sig)
            == if input[i] == '\\' && i + 1 < |input|
               then Whole(done + [input[i], input[i + 1]], input, i + 2, Str(quote), sig)
               else if input[i] == quote then Whole(done + [input[i]], input, i + 1, Code, quote)
               else Whole(done + [input[i]], input, i + 1, Str(quote), sig)
  {
    hide From, Minified, InString;
    CharIs(input, i);
    var c, s := input[i], From(input, i);
    InStringStarts(s, quote, sig, LastOf(done));
    if c == '\\' && i + 1 < |input| {
      Printed(done, [c, input[i + 1]], input, i + 2, Str(quote), sig);
    } else if c == quote {
      Printed(done, [c], input, i + 1, Code, quote);
    } else {
      Printed(done, [c], input, i + 1, Str(quote), sig);
    }
  }

  lemma InStringStarts(s: string, quote: char, sig: char, last: Option<char>)
    requires s != ""
    ensures Minified(s, Str(quote), sig, last)
            == if s[0] == '\\' && |s| > 1 then s[..2] + Minified(s[2..], Str(quote), sig, Some(s[1]))
               else if s[0] == quote then [s[0]] + Minified(s[1..], Code, quote, Some(s[0]))
               else [s[0]] + Minified(s[1..], Str(quote), sig, Some(s[0]))
  {
    assert Minified(s, Str(quote), sig, last) == InString(s, quote, sig);
    hide Minified;
  }

  lemma RegexStep(done: string, input: string, i: nat, sig: char)
    requires i < |input|
    ensures Whole(done, input, i, Regex, sig)
            == if input[i] == '\\' && i + 1 < |input|
               then Whole(done + [input[i], input[i + 1]], input, i + 2, Regex, sig)
               else if input[i] == '/' then Whole(done + [input[i]], input, i + 1, Code, '/')
               else Whole(done + [input[i]], input, i + 1, Regex, sig)
  {
    hide From, Minified, InRegex;
    CharIs(input, i);
    var c, s := input[i], From(input, i);
    InRegexStarts(s, sig, LastOf(done));
    if c == '\\' && i + 1 < |input| {
      Printed(done, [c, input[i + 1]], input, i + 2, Regex, sig);
    } else if c == '/' {
      Printed(done, [c], input, i + 1, Code, '/');
    } else {
      Printed(done, [c], input, i + 1, Regex, sig);
    }
  }

  lemma InRegexStarts(s: string, sig: char, last: Option<char>)
    requires s != ""
    ensures Minified(s, Regex, sig, last)
            == if s[0] == '\\' && |s| > 1 then s[..2] + Minified(s[2..], Regex, sig, Some(s[1]))
               else if s[0] == '/' then [s[0]] + Minified(s[1..], Code, '/', Some(s[0]))
               else [s[0]] + Minified(s[1..], Regex, sig, Some(s[0]))
  {
    assert Minified(s, Regex, sig, last) == InRegex(s, sig);
    hide Minified;
  }

  lemma CodeStep(done: string, input: string, i: nat, sig: char)
    requires i < |input| && !IsSpace(input[i])
    ensures var c := input[i];
            var next := if i + 1 < |input| then input[i + 1] else NUL;
            Whole(done, input, i, Code, sig)
            == if IsQuote(c) then Whole(done + [c], input, i + 1, Str(c), sig)
               else if c == '/' && next == '/' then Whole(done, input, i + 2, LineComment, sig)
               else if c == '/' && next == '*' then Whole(done, input, i + 2, BlockComment, sig)
               else if c == '/' && IsRegexPrefix(sig) then Whole(done + [c], input, i + 1, Regex, NUL)
               else Whole(done + [c], input, i + 1, Code, c)
  {
    hide IsQuote, IsRegexPrefix, IsSpace;
    CharIs(input, i);
    var c := input[i];
    Printed(done, [c], input, i + 1, Str(c), sig);
    Printed(done, [c], input, i + 1, Regex, NUL);
    Printed(done, [c], input, i + 1, Code, c);
    var s := From(input, i);
    assert Minified(s, Code, sig, LastOf(done)) == InCode(s, sig, LastOf(done));
    hide From, Minified;
  }

  lemma SpacesInCode(s: string, sig: char, last: Option<char>)
    requires s != "" && IsSpace(s[0])
    ensures var rest := TrimLeft(s);
            Minified(s, Code, sig, last)
              == if DropsSpace(sig, last, CharAt(rest, 0)) then Minified(rest, Code, sig, last)
                                            else " " + Minified(rest, Code, ' ', Some(' '))
  {
    assert Minified(s, Code, sig, last) == InCode(s, sig, last);
    hide Minified, TrimLeft, DropsSpace, IsRegexPrefix;
  }

  lemma SpacesStep(done: string, input: string, i: nat, k: nat, sig: char)
    requires i < |input| && IsSpace(input[i]) && k <= |input| && From(input, k) == TrimLeft(From(input, i + 1))
    ensures Whole(done, input, i, Code, sig)
            == if done == "" || IsPunct(sig) || IsPunct(if k < |input| then input[k] else NUL)
               then Whole(done, input, k, Code, sig)
               else Whole(done + " ", input, k, Code, ' ')
  {
    hide IsPunct, TrimLeft, IsSpace, Minified;
    CharIs(input, i);
    SpaceStep(input, i);
    NextIs(input, k);
    Printed(done, " ", input, k, Code, ' ');
    SpacesInCode(From(input, i), sig, LastOf(done));
    hide From;
  }

  /** The mode the flags of the loop stand for, in the order the loop looks at them. */
  function ModeOf(inSingleComment: bool, inMultiComment: bool, inString: bool, quote: char, inRegex: bool): Mode {
    if inSingleComment then LineComment
    else if inMultiComment then BlockComment
    else if inString then Str(quote)
    else if inRegex then Regex
    else Code
  }

  lemma WholeEnds(done: string, input: string, i: nat, m: Mode, sig: char)
    ensures Whole("", input, 0, Code, NUL) == Minified(input, Code, NUL, None)
    ensures i >= |input| ==> Whole(done, input, i, m, sig) == done
  {
    assert From(input, 0) == input;
    assert i >= |input| ==> From(input, i) == "" && Minified("", m, sig, LastOf(done)) == "";
    hide Minified;
    assert "" + Minified(input, Code, NUL, None) == Minified(input, Code, NUL, None);
  }

  /** The loop body inside a line comment. */
  method LineChar(input: string, i: nat, sig: char, out: array<char>, o: nat) returns (o': nat, inSingleComment: bool)
    requires o <= i < |input| < out.Length
    modifies out
    ensures o' <= i + 1
    ensures Whole(out[..o'], input, i + 1, if inSingleComment then LineComment else Code, sig)
            == old(Whole(out[..o], input, i, LineComment, sig))
  {
    hide Whole, Minified, From;
    var c := input[i];
    LineStep(out[..o], input, i, sig);
    o', inSingleComment := o, true;
    if c == '\n' || c == '\r' {
      inSingleComment := false;
      if o > 0 && out[o - 1] != '\n' {
        o' := Put(out, o, '\n');
      }
    }
  }

  /** The loop body inside a block comment. */
  method BlockChar(input: string, i: nat, sig: char, out: array<char>, o: nat)
      returns (i': nat, o': nat, inMultiComment: bool, sig': char)
    requires o <= i < |input| < out.Length
    modifies out
    ensures i <= i' < |input| && o' <= i' + 1
    ensures Whole(out[..o'], input, i' + 1, if inMultiComment then BlockComment else Code, sig')
            == old(Whole(out[..o], input, i, BlockComment, sig))
  {
    hide Whole, Minified, From, IsIdent, TrimLeft, IsSpace;
    BlockStep(out[..o], input, i, sig);
    i', o', inMultiComment, sig' := i, o, true, sig;
    if input[i] == '*' && i + 1 < |input| && input[i + 1] == '/' {
      inMultiComment := false;
      var k := SkipSpaces(input, i + 2);
      NextIs(input, k);
      var right := if k < |input| then input[k] else NUL;
      if IsIdent(sig) && IsIdent(right) {
        if o == 0 || out[o - 1] != ' ' {
          o' := Put(out, o, ' ');
        }
        sig' := ' ';
      }
      i' := i + 1;
    }
  }

  /** Copy a character and, after a backslash, the next one too. */
  method CopyChar(input: string, i: nat, out: array<char>, o: nat) returns (i': nat, o': nat)
    requires o <= i < |input| < out.Length
    modifies out
    ensures var escapes := input[i] == '\\' && i + 1 < |input|;
            && i' == (if escapes then i + 1 else i) && o' == o + 1 + i' - i
            && out[..o'] == old(out[..o]) + if escapes then [input[i], input[i + 1]] else [input[i]]
  {
    i' := i;
    o' := Put(out, o, input[i]);
    if input[i] == '\\' && i + 1 < |input| {
      i' := i + 1;
      o' := Put(out, o', input[i']);
    }
  }

  /** The loop body inside a string. */
  method StringChar(input: string, i: nat, quote: char, sig: char, out: array<char>, o: nat)
      returns (i': nat, o': nat, inString: bool, sig': char)
    requires o <= i < |input| < out.Length
    modifies out
    ensures i <= i' < |input| && o' <= i' + 1
    ensures Whole(out[..o'], input, i' + 1, if inString then Str(quote) else Code, sig')
            == old(Whole(out[..o], input, i, Str(quote), sig))
  {
    hide Whole, Minified, From;
    StringStep(out[..o], input, i, quote, sig);
    inString, sig' := true, sig;
    i', o' := CopyChar(input, i, out, o);
    if i' == i && input[i] == quote {
      inString := false;
      sig' := quote;
    }
  }

  /** The loop body inside a regular expression. */
  method RegexChar(input: string, i: nat, sig: char, out: array<char>, o: nat)
      returns (i': nat, o': nat, inRegex: bool, sig': char)
    requires o <= i < |input| < out.Length
    modifies out
    ensures i <= i' < |input| && o' <= i' + 1
    ensures Whole(out[..o'], input, i' + 1, if inRegex then Regex else Code, sig')
            == old(Whole(out[..o], input, i, Regex, sig))
  {
    hide Whole, Minified, From;
    RegexStep(out[..o], input, i, sig);
    inRegex, sig' := true, sig;
    i', o' := CopyChar(input, i, out, o);
    if i' == i && input[i] == '/' {
      inRegex := false;
      sig' := '/';
    }
  }

  /** The loop body in a run of spaces. */
  method SpaceChars(input: string, i: nat, sig: char, out: array<char>, o: nat) returns (i': nat, o': nat, sig': char)
    requires o <= i < |input| < out.Length && IsSpace(input[i])
    modifies out
    ensures i <= i' < |input| && o' <= i' + 1
    ensures Whole(out[..o'], input, i' + 1, Code, sig') == old(Whole(out[..o], input, i, Code, sig))
  {
    hide Whole, Minified, From, IsPunct, TrimLeft, IsSpace;
    var k := SkipSpaces(input, i + 1);
    SpacesStep(out[..o], input, i, k, sig);
    var next := if k < |input| then input[k] else NUL;
    i', o', sig' := k - 1, o, sig;
    if o > 0 && !IsPunct(sig) && !IsPunct(next) {
      o' := Put(out, o, ' ');
      sig' := ' ';
    }
  }

  /** cweb_minify_js: the caller's buffer has room for the input and a NUL. */
  method Minify(input: string, out: array<char>) returns (o: nat)
    requires |input| < out.Length
    modifies out
    ensures o <= |input| && out[..o] == Output(input)
  {
    hide Whole, Minified, From, IsSpace, IsPunct, IsIdent, IsQuote, IsRegexPrefix, TrimLeft, TrimEnd;
    o := 0;
    var inString, inRegex, inSingleComment, inMultiComment := false, false, false, false;
    var stringQuote, prevSig := NUL, NUL;
    var i := 0;
    assert out[..o] == "";
    WholeEnds("", input, 0, Code, NUL);
    while i < |input|
      invariant o <= i && o <= |input|
      invariant (inSingleComment ==> !inMultiComment && !inString && !inRegex)
                && (inMultiComment ==> !inString && !inRegex) && (inString ==> !inRegex)
      invariant Whole(out[..o], input, i, ModeOf(inSingleComment, inMultiComment, inString, stringQuote, inRegex),
                prevSig)
                == Minified(input, Code, NUL, None)
      decreases |input| - i
    {
      var c := input[i];
      var next := if i + 1 < |input| then input[i + 1] else NUL;
      if inSingleComment {
        o, inSingleComment := LineChar(input, i, prevSig, out, o);
      } else if inMultiComment {
        i, o, inMultiComment, prevSig := BlockChar(input, i, prevSig, out, o);
      } else if inString {
        i, o, inString, prevSig := StringChar(input, i, stringQuote, prevSig, out, o);
      } else if inRegex {
        i, o, inRegex, prevSig := RegexChar(input, i, prevSig, out, o);
      } else if IsSpace(c) {
        i, o, prevSig := SpaceChars(input, i, prevSig, out, o);
      } else {
        CodeStep(out[..o], input, i, prevSig);
        if IsQuote(c) {
          inString := true;
          stringQuote := c;
          o := Put(out, o, c);
        } else if c == '/' && next == '/' {
          inSingleComment := true;
          i := i + 1;
        } else if c == '/' && next == '*' {
          inMultiComment := true;
          i := i + 1;
        } else if c == '/' && IsRegexPrefix(prevSig) {
          inRegex := true;
          o := Put(out, o, c);
          prevSig := NUL;
        } else {
          o := Put(out, o, c);
          prevSig := c;
        }
      }
      i := i + 1;
    }
    WholeEnds(out[..o], input, i, ModeOf(inSingleComment, inMultiComment, inString, stringQuote, inRegex), prevSig);
    ghost var all := out[..o];
    while o > 0 && IsBlank(out[o - 1])
      invariant o <= |all| && out[..o] == all[..o] && TrimEnd(all[..o]) == TrimEnd(all)
    {
      TrimStep(all[..o]);
      assert all[..o][..o - 1] == all[..o - 1];
      o := o - 1;
    }
    TrimStep(all[..o]);
  }

  lemma TrimStep(s: string)
    ensures s != "" && IsBlank(s[|s| - 1]) ==> TrimEnd(s) == TrimEnd(s[..|s| - 1])
    ensures s == "" || !IsBlank(s[|s| - 1]) ==> TrimEnd(s) == s
  {}
}
