/** What the JavaScript minifier keeps: everything but comments and spaces outside
    strings and regular expressions; and it never joins two words. */
module MinifyJsContent {
  import opened Text
  import opened Weave
  import opened MinifyJs

  /** The length of a line comment after its opening, with the newline that ends it. */
  function LineEnd(s: string): (n: Option<nat>)
    ensures n.Some? ==> 0 < n.value <= |s|
  {
    if s == "" then None
    else if IsNewline(s[0]) then Some(1)
    else After(1, LineEnd(s[1..]))
  }

  /** The program cut into pieces. `sig` is the last character of code that is not a
      space: it alone decides whether a `/` starts a regular expression. */
  function Cut(s: string, m: Mode, sig: char): seq<Piece>
    requires m.Code? || m.Str? || m.Regex?
    decreases |s|, 2
  {
    if s == "" then []
    else if m.Str? || m.Regex? then
      var n := if s[0] == '\\' && |s| > 1 then 2 else 1;
      var end := if m.Str? then m.quote else '/';
      [Keep(s[..n])] + Cut(s[n..], if n == 1 && s[0] == end then Code else m,
                           if n == 1 && s[0] == end then end else sig)
    else CutCode(s, sig)
  }

  function CutCode(s: string, sig: char): seq<Piece>
    requires s != ""
    decreases |s|, 1
  {
    if IsQuote(s[0]) then [Keep(s[..1])] + Cut(s[1..], Str(s[0]), sig)
    else if s[0] == '/' && CharAt(s, 1) == '/' then CutGap(s, CommentLength(s, LineEnd(s[2..])), sig)
    else if s[0] == '/' && CharAt(s, 1) == '*' then CutGap(s, CommentLength(s, BlockEnd(s[2..])), sig)
    else if s[0] == '/' && IsRegexPrefix(sig) then [Keep(s[..1])] + Cut(s[1..], Regex, NUL)
    else if IsSpace(s[0]) then CutGap(s, |s| - |TrimLeft(s)|, sig)
    else [Keep(s[..1])] + Cut(s[1..], Code, s[0])
  }

  function CutGap(s: string, n: nat, sig: char): seq<Piece>
    requires 0 < n <= |s|
    decreases |s|, 0
  {
    [Gap(s[..n])] + Cut(s[n..], Code, sig)
  }

  // ------------------------------------------------------------------ the pieces

  /** A line comment: it ends with the first newline in it, or has none and is last. */
  predicate IsLineComment(t: string, behind: string) {
    && At(t, 0, "//")
    && (forall k :: 2 <= k < |t| - 1 ==> !IsNewline(t[k]))
    && ((|t| > 2 && IsNewline(t[|t| - 1])) || behind == "")
  }

  predicate IsComment(t: string, behind: string) {
    IsLineComment(t, behind) || IsBlockComment(t, behind)
  }

  lemma {:induction false} LineEndIsFirst(s: string)
    ensures var n := LineEnd(s);
            if n.Some? then IsNewline(s[n.value - 1]) && forall k :: 0 <= k < n.value - 1 ==> !IsNewline(s[k])
            else forall k :: 0 <= k < |s| ==> !IsNewline(s[k])
  {
    hide IsNewline;
    if s != "" && !IsNewline(s[0]) {
      LineEndIsFirst(s[1..]);
      assert forall k :: 0 < k < |s| ==> s[k] == s[1..][k - 1];
    }
  }

  lemma LineCommentIsCut(s: string)
    requires |s| >= 2 && s[0] == '/' && s[1] == '/'
    ensures var n := CommentLength(s, LineEnd(s[2..])); IsLineComment(s[..n], s[n..])
  {
    var n := CommentLength(s, LineEnd(s[2..]));
    var t := s[..n];
    LineEndIsFirst(s[2..]);
    assert t[0..2] == [s[0], s[1]] == "//";
    hide LineEnd, IsNewline;
    assert forall k :: 2 <= k < n ==> t[k] == s[2..][k - 2];
  }

  /** The pieces are the program, and its gaps are its comments and space runs. */
  lemma {:induction false} PiecesTile(s: string, m: Mode, sig: char)
    requires m.Code? || m.Str? || m.Regex?
    ensures Source(Cut(s, m, sig)) == s && Blank(Cut(s, m, sig), IsComment)
    decreases |s|, 2
  {
    if s != "" {
      if m.Str? || m.Regex? {
        var n := if s[0] == '\\' && |s| > 1 then 2 else 1;
        var end := if m.Str? then m.quote else '/';
        var ends := n == 1 && s[0] == end;
        OnePiece(s, Keep(s[..n]), s[n..], if ends then Code else m, if ends then end else sig);
        hide Source, Blank;
      } else {
        CodePieces(s, sig);
      }
    }
  }

  lemma {:induction false} CodePieces(s: string, sig: char)
    requires s != ""
    ensures Source(Cut(s, Code, sig)) == s && Blank(Cut(s, Code, sig), IsComment)
    decreases |s|, 1
  {
    hide Cut, Source, Blank, IsComment, IsRegexPrefix, LineEnd, BlockEnd, CommentLength, TrimLeft, IsSpace, IsQuote, At;
    if s[0] == '/' && (CharAt(s, 1) == '/' || CharAt(s, 1) == '*') {
      var n := CommentLength(s, if s[1] == '/' then LineEnd(s[2..]) else BlockEnd(s[2..]));
      CutComment(s, sig);
      CommentIsCut(s, n);
      OnePiece(s, Gap(s[..n]), s[n..], Code, sig);
    } else if IsSpace(s[0]) {
      CutSpaces(s, sig);
      var n := |s| - |TrimLeft(s)|;
      OnePiece(s, Gap(s[..n]), s[n..], Code, sig);
    } else {
      CutChar(s, sig);
      OnePiece(s, Keep([s[0]]), s[1..], ModeAfter(s[0], sig), SigAfter(s[0], sig));
    }
  }

  lemma CommentIsCut(s: string, n: nat)
    requires |s| >= 2 && s[0] == '/' && (s[1] == '/' || s[1] == '*')
    requires n == CommentLength(s, if s[1] == '/' then LineEnd(s[2..]) else BlockEnd(s[2..]))
    ensures IsComment(s[..n], s[n..])
  {
    hide IsLineComment, IsBlockComment, LineEnd, BlockEnd, CommentLength;
    if s[1] == '/' {
      LineCommentIsCut(s);
    } else {
      BlockCommentIsCut(s);
    }
  }

  /** The mode and the significant character after code character c. */
  function ModeAfter(c: char, sig: char): Mode {
    if IsQuote(c) then Str(c) else if c == '/' && IsRegexPrefix(sig) then Regex else Code
  }

  function SigAfter(c: char, sig: char): char {
    if IsQuote(c) then sig else if c == '/' && IsRegexPrefix(sig) then NUL else c
  }

  lemma CutChar(s: string, sig: char)
    requires s != "" && !IsSpace(s[0]) && !(s[0] == '/' && (CharAt(s, 1) == '/' || CharAt(s, 1) == '*'))
    ensures Cut(s, Code, sig) == [Keep([s[0]])] + Cut(s[1..], ModeAfter(s[0], sig), SigAfter(s[0], sig))
  {
    assert s[..1] == [s[0]];
    assert Cut(s, Code, sig) == CutCode(s, sig);
    hide Cut, IsRegexPrefix, IsQuote, IsSpace, CutGap, LineEnd, BlockEnd, CommentLength, TrimLeft;
  }

  lemma {:induction false} OnePiece(s: string, p: Piece, rest: string, m: Mode, sig: char)
    requires m.Code? || m.Str? || m.Regex?
    requires p.text + rest == s && p.text != "" && (p.Gap? ==> AllSpace(p.text) || IsComment(p.text, rest))
    ensures Source([p] + Cut(rest, m, sig)) == s && Blank([p] + Cut(rest, m, sig), IsComment)
    decreases |s|, 0
  {
    PiecesTile(rest, m, sig);
    SourceCons(p, Cut(rest, m, sig));
    hide Cut, IsComment, AllSpace;
    assert ([p] + Cut(rest, m, sig))[1..] == Cut(rest, m, sig);
  }

  // ------------------------------------------------------------------ the weaving

  /** What the loop state knows about the code it has printed. */
  predicate Knows(s: string, sig: char, last: Option<char>, left: char, gap: bool, sep: bool) {
    && (sig == left || (sig == ' ' && !IsRegexPrefix(left)))
    && (last.None? <==> left == NUL)
    && (left == NUL ==> sig == NUL)
    && (IsIdent(left) && !sep ==> sig == left && last == Some(left) && (gap && s != "" ==> !IsIdent(s[0])))
  }

  lemma {:induction false} LineComments(s: string, sig: char, last: Option<char>)
    ensures var n := LineEnd(s);
            Minified(s, LineComment, sig, last)
            == if n.None? then ""
               else if last.Some? && last.value != '\n' then "\n" + Minified(s[n.value..], Code, sig, Some('\n'))
               else Minified(s[n.value..], Code, sig, last)
  {
    if s != "" {
      hide InBlock, InString, InRegex, InCode;
      assert Minified(s, LineComment, sig, last) == InLine(s, sig, last);
      hide Minified;
      if !IsNewline(s[0]) {
        LineComments(s[1..], sig, last);
        var n := LineEnd(s[1..]);
        if n.Some? {
          assert s[1..][n.value..] == s[1 + n.value..];
        }
      }
    }
  }

  lemma {:induction false} BlockComments(s: string, sig: char, last: Option<char>)
    ensures var n := BlockEnd(s);
            Minified(s, BlockComment, sig, last)
            == if n.None? then ""
               else var rest := s[n.value..];
                    if !(IsIdent(sig) && IsIdent(NextVisible(rest))) then Minified(rest, Code, sig, last)
                    else if Lacks(last, ' ') then " " + Minified(rest, Code, ' ', Some(' '))
                    else Minified(rest, Code, ' ', last)
  {
    hide InLine, InString, InRegex, InCode, IsIdent, NextVisible, Lacks, BlockEnd, CharAt;
    if s == "" {
      BlockEndStep("/");
    } else {
      BlockEndStep(s);
      assert Minified(s, BlockComment, sig, last) == InBlock(s, sig, last);
      hide Minified;
      if !(s[0] == '*' && CharAt(s, 1) == '/') {
        BlockComments(s[1..], sig, last);
        var n := BlockEnd(s[1..]);
        assert n.Some? ==> s[1..][n.value..] == s[1 + n.value..];
      }
    }
  }

  /** Code is kept verbatim and in order, strings and regular expressions with the
      spaces in them, and two words never grow together. */
  lemma {:induction false} JsIsWoven(s: string, m: Mode, sig: char, last: Option<char>, left: char, gap: bool,
      sep: bool)
    requires NoNul(s) && (m.Code? || m.Str? || m.Regex?)
    requires if m.Code? then Knows(s, sig, last, left, gap, sep) else !gap
    ensures Apart(Cut(s, m, left), Minified(s, m, sig, last), left, gap, sep, IsIdent)
    decreases |s|, 2
  {
    if s == "" {
    } else if m.Str? || m.Regex? {
      LiteralWoven(s, m, sig, last, left, sep);
    } else if s[0] == '/' && CharAt(s, 1) == '/' {
      LineWoven(s, sig, last, left, gap, sep);
    } else if s[0] == '/' && CharAt(s, 1) == '*' {
      BlockWoven(s, sig, last, left, gap, sep);
    } else if IsSpace(s[0]) {
      SpaceWoven(s, sig, last, left, gap, sep);
    } else {
      CharWoven(s, sig, last, left, gap, sep);
    }
  }

  lemma {:induction false} LiteralWoven(s: string, m: Mode, sig: char, last: Option<char>, left: char, sep: bool)
    requires s != "" && NoNul(s) && (m.Str? || m.Regex?)
    ensures Apart(Cut(s, m, left), Minified(s, m, sig, last), left, false, sep, IsIdent)
    decreases |s|, 1
  {
    assert Minified(s, m, sig, last) == if m.Str? then InString(s, m.quote, sig) else InRegex(s, sig);
    var n := if s[0] == '\\' && |s| > 1 then 2 else 1;
    var end := if m.Str? then m.quote else '/';
    var ends := n == 1 && s[0] == end;
    var m', sig', left' := if ends then Code else m, if ends then end else sig, if ends then end else left;
    var last' := Some(s[n - 1]);
    assert Cut(s, m, left) == [Keep(s[..n])] + Cut(s[n..], m', left');
    assert s[..1] == [s[0]];
    hide Cut, Minified, Apart, IsIdent, IsRegexPrefix;
    assert Minified(s, m, sig, last) == s[..n] + Minified(s[n..], m', sig', last');
    if ends {
      assert s[0] in s;
      JsIsWoven(s[n..], Code, end, last', end, false, false);
    } else {
      AnyLeft(s[n..], m, left, s[n - 1]);
      JsIsWoven(s[n..], m, sig, last', s[n - 1], false, false);
    }
    KeepApart(s[..n], Cut(s[n..], m', left'), Minified(s[n..], m', sig', last'), left, false, sep, IsIdent);
  }

  /** Inside a literal the code before it does not matter. */
  lemma {:induction false} AnyLeft(s: string, m: Mode, a: char, b: char)
    requires m.Str? || m.Regex?
    ensures Cut(s, m, a) == Cut(s, m, b)
    decreases |s|
  {
    if s != "" {
      var n := if s[0] == '\\' && |s| > 1 then 2 else 1;
      AnyLeft(s[n..], m, a, b);
    }
  }

  /** A gap of n characters after which the loop is at code again. */
  lemma {:induction false} GapWoven(s: string, n: nat, separator: string, sig': char, last': Option<char>,
                                   left: char, gap: bool, sep: bool)
    requires NoNul(s) && 0 < n <= |s| && separator in {"", " ", "\n"}
    requires Knows(s[n..], sig', last', left, true, sep || separator != "")
    ensures Apart(CutGap(s, n, left), separator + Minified(s[n..], Code, sig', last'), left, gap, sep, IsIdent)
    decreases |s|, 0
  {
    hide Cut, Minified, Apart, Knows;
    JsIsWoven(s[n..], Code, sig', last', left, true, sep || separator != "");
    GapApart(s[..n], separator, Cut(s[n..], Code, left), Minified(s[n..], Code, sig', last'), left, gap, sep, IsIdent);
  }

  lemma CutComment(s: string, sig: char)
    requires |s| >= 2 && s[0] == '/'
    ensures s[1] == '/' ==> Cut(s, Code, sig) == CutGap(s, CommentLength(s, LineEnd(s[2..])), sig)
    ensures s[1] == '*' ==> Cut(s, Code, sig) == CutGap(s, CommentLength(s, BlockEnd(s[2..])), sig)
    ensures s[1] == '/' ==> forall sig, last :: Minified(s, Code, sig, last) == Minified(s[2..], LineComment, sig, last)
    ensures s[1] == '*' ==>
              forall sig, last :: Minified(s, Code, sig, last) == Minified(s[2..], BlockComment, sig, last)
  {
    assert !IsQuote(s[0]);
    assert Cut(s, Code, sig) == CutCode(s, sig);
    hide Cut;
    forall sig, last
      ensures Minified(s, Code, sig, last) == InCode(s, sig, last)
    {}
    hide LineEnd, BlockEnd, Minified, IsQuote, CutGap, CommentLength, IsRegexPrefix, IsSpace;
  }

  lemma {:induction false} LineWoven(s: string, sig: char, last: Option<char>, left: char, gap: bool, sep: bool)
    requires s != "" && s[0] == '/' && CharAt(s, 1) == '/' && NoNul(s) && Knows(s, sig, last, left, gap, sep)
    ensures Apart(Cut(s, Code, left), Minified(s, Code, sig, last), left, gap, sep, IsIdent)
    decreases |s|, 1
  {
    hide Cut, CutGap, Minified, Apart, LineEnd, IsRegexPrefix, IsSpace;
    CutComment(s, left);
    LineComments(s[2..], sig, last);
    var end := LineEnd(s[2..]);
    var n := CommentLength(s, end);
    assert end.Some? ==> s[2..][end.value..] == s[n..];
    assert Minified("", Code, sig, last) == "" by {
      NothingLeft(sig, last);
    }
    if end.Some? && last.Some? && last.value != '\n' {
      GapWoven(s, n, "\n", sig, Some('\n'), left, gap, sep);
    } else {
      assert s[n..] != "" ==> end.Some?;
      assert IsIdent(left) && !sep ==> last == Some(left) && left != '\n';
      GapWoven(s, n, "", sig, last, left, gap, sep);
      assert "" + Minified(s[n..], Code, sig, last) == Minified(s[n..], Code, sig, last);
    }
  }

  lemma NothingLeft(sig: char, last: Option<char>)
    ensures Minified("", Code, sig, last) == ""
  {}

  /** An identifier character is neither a space nor a separator, and a regular
      expression cannot follow it. */
  lemma IdentFacts(c: char)
    ensures c == ' ' ==> !IsIdent(c)
    ensures IsIdent(c) ==> c != NUL
    ensures IsIdent(c) ==> !IsSpace(c) && !IsRegexPrefix(c) && !IsPunct(c)
    ensures IsRegexPrefix(c) ==> c == NUL || IsPunct(c)
  {}

  lemma FirstVisible(s: string)
    ensures s != "" && IsIdent(s[0]) ==> NextVisible(s) == s[0]
  {
    if s != "" {
      IdentFacts(s[0]);
    }
  }

  lemma {:induction false} BlockWoven(s: string, sig: char, last: Option<char>, left: char, gap: bool, sep: bool)
    requires s != "" && s[0] == '/' && CharAt(s, 1) == '*' && NoNul(s) && Knows(s, sig, last, left, gap, sep)
    ensures Apart(Cut(s, Code, left), Minified(s, Code, sig, last), left, gap, sep, IsIdent)
    decreases |s|, 1
  {
    hide Cut, CutGap, Minified, Apart, BlockEnd, IsRegexPrefix, IsSpace, IsIdent, NextVisible;
    CutComment(s, left);
    BlockComments(s[2..], sig, last);
    var end := BlockEnd(s[2..]);
    var n := CommentLength(s, end);
    var rest := s[n..];
    assert end.Some? ==> s[2..][end.value..] == rest;
    NothingLeft(sig, last);
    IdentFacts(sig);
    FirstVisible(rest);
    IdentFacts(' ');
    if end.Some? && IsIdent(sig) && IsIdent(NextVisible(rest)) {
      if Lacks(last, ' ') {
        GapWoven(s, n, " ", ' ', Some(' '), left, gap, sep);
      } else {
        GapWoven(s, n, "", ' ', last, left, gap, sep);
        assert "" + Minified(rest, Code, ' ', last) == Minified(rest, Code, ' ', last);
      }
    } else {
      GapWoven(s, n, "", sig, last, left, gap, sep);
      assert "" + Minified(rest, Code, sig, last) == Minified(rest, Code, sig, last);
    }
  }

  lemma CutSpaces(s: string, sig: char)
    requires s != "" && IsSpace(s[0])
    ensures |TrimLeft(s)| < |s| && Cut(s, Code, sig) == CutGap(s, |s| - |TrimLeft(s)|, sig)
  {
    assert !IsQuote(s[0]) && s[0] != '/';
    assert |TrimLeft(s)| < |s|;
    assert Cut(s, Code, sig) == CutCode(s, sig);
    hide Cut, IsRegexPrefix, TrimLeft, LineEnd, BlockEnd, CommentLength, CutGap, IsQuote, IsSpace;
  }

  lemma {:induction false} SpaceWoven(s: string, sig: char, last: Option<char>, left: char, gap: bool, sep: bool)
    requires s != "" && IsSpace(s[0]) && NoNul(s) && Knows(s, sig, last, left, gap, sep)
    ensures Apart(Cut(s, Code, left), Minified(s, Code, sig, last), left, gap, sep, IsIdent)
    decreases |s|, 1
  {
    hide Cut, CutGap, Minified, Apart, IsRegexPrefix, IsSpace, IsIdent, IsPunct, TrimLeft;
    CutSpaces(s, left);
    SpacesInCode(s, sig, last);
    var rest := TrimLeft(s);
    var n := |s| - |rest|;
    assert rest == s[n..];
    IdentFacts(sig);
    IdentFacts(left);
    IdentFacts(CharAt(rest, 0));
    IdentFacts(' ');
    if DropsSpace(sig, last, CharAt(rest, 0)) {
      GapWoven(s, n, "", sig, last, left, gap, sep);
      assert "" + Minified(rest, Code, sig, last) == Minified(rest, Code, sig, last);
    } else {
      GapWoven(s, n, " ", ' ', Some(' '), left, gap, sep);
    }
  }

  lemma {:induction false} CharWoven(s: string, sig: char, last: Option<char>, left: char, gap: bool, sep: bool)
    requires s != "" && NoNul(s) && Knows(s, sig, last, left, gap, sep)
    requires !IsSpace(s[0]) && !(s[0] == '/' && (CharAt(s, 1) == '/' || CharAt(s, 1) == '*'))
    ensures Apart(Cut(s, Code, left), Minified(s, Code, sig, last), left, gap, sep, IsIdent)
    decreases |s|, 1
  {
    var c := s[0];
    assert c in s && IsRegexPrefix(sig) == IsRegexPrefix(left) by {
      assert !IsRegexPrefix(' ');
    }
    assert Minified(s, Code, sig, last) == InCode(s, sig, last);
    CutChar(s, left);
    var m', left' := ModeAfter(c, left), SigAfter(c, left);
    var sig' := SigAfter(c, sig);
    hide Cut, Minified, Apart, IsIdent, IsRegexPrefix, IsSpace, IsQuote;
    assert Minified(s, Code, sig, last) == [c] + Minified(s[1..], m', sig', Some(c));
    if m' != Code {
      AnyLeft(s[1..], m', left', c);
    }
    JsIsWoven(s[1..], m', sig', Some(c), c, false, false);
    KeepApart([c], Cut(s[1..], m', left'), Minified(s[1..], m', sig', Some(c)), left, gap, sep, IsIdent);
  }

  /** The characters of identifiers, keywords and numbers. */
  predicate IsWord(c: char) {
    'a' <= c <= 'z' || 'A' <= c <= 'Z' || '0' <= c <= '9' || c == '_' || c == '$'
  }

  /** The characters beside which the minifier drops spaces. */
  predicate IsOperator(c: char) {
    || c == '(' || c == ')' || c == '[' || c == ']' || c == '{' || c == '}' || c == ',' || c == ';' || c == ':'
    || c == '?' || c == '+' || c == '-' || c == '*' || c == '%' || c == '&' || c == '|' || c == '^' || c == '!'
    || c == '=' || c == '<' || c == '>' || c == '~' || c == '/' || c == '.'
  }

  /** The characters behind which a slash starts a regular expression. */
  predicate BeforeRegex(c: char) {
    || c == '(' || c == '=' || c == ':' || c == ',' || c == '?' || c == '!' || c == '&' || c == '|' || c == '^'
    || c == '%' || c == '+' || c == '-' || c == '~' || c == '{' || c == '}' || c == '[' || c == ';'
  }

  lemma TablesAre(c: char)
    ensures IsIdent(c) <==> IsWord(c)
    ensures IsPunct(c) <==> IsOperator(c)
    ensures IsRegexPrefix(c) <==> c == NUL || BeforeRegex(c)
  {}

  /** For every program text: strings, regular expressions and code are printed verbatim
      and in order, each comment or space run becomes at most one separator, and words
      stay words. */
  lemma WordsStayApart(s: string)
    requires NoNul(s)
    ensures Apart(Cut(s, Code, NUL), Minified(s, Code, NUL, None), NUL, false, false, IsWord)
  {
    assert !IsIdent(NUL);
    JsIsWoven(s, Code, NUL, None, NUL, false, false);
    forall c: char
      ensures IsWord(c) ==> IsIdent(c)
    {
      TablesAre(c);
    }
    hide Cut, Minified, Apart, IsWord, IsIdent;
    ApartWeaker(Cut(s, Code, NUL), Minified(s, Code, NUL, None), NUL, false, false, IsIdent, IsWord);
  }

  // ------------------------------------------------------------------ operators

  lemma TrimBefore(gap: string, r: string)
    requires AllSpace(gap) && r != "" && !IsSpace(r[0])
    ensures TrimLeft(gap + r) == r
    decreases |gap|
  {
    hide IsSpace, TrimLeft;
    TrimLeftStep(gap + r);
    if gap == "" {
      assert gap + r == r;
    } else {
      assert (gap + r)[0] == gap[0] && (gap + r)[1..] == gap[1..] + r && IsSpace(gap[0]);
      TrimBefore(gap[1..], r);
    }
  }

  /** Code character l, then spaces, then text r: a blank stays between them exactly when
      neither l nor the first character of r is punctuation of the minifier's table. So
      any two operators with spaces between them are joined. */
  lemma BlankKeptIff(l: char, gap: string, r: string, sig: char, last: Option<char>)
    requires !IsSpace(l) && !IsQuote(l) && (l == '/' ==> sig != NUL && !BeforeRegex(sig))
    requires gap != "" && AllSpace(gap) && r != "" && !IsSpace(r[0])
    ensures Minified([l] + gap + r, Code, sig, last)
            == if IsOperator(l) || IsOperator(r[0]) then [l] + Minified(r, Code, l, Some(l))
               else [l] + " " + Minified(r, Code, ' ', Some(' '))
  {
    FrontOf(l, gap, r);
    TrimBefore(gap, r);
    TablesAre(l);
    TablesAre(r[0]);
    TablesAre(sig);
    hide Minified, IsSpace, IsQuote, IsPunct, TrimLeft, AllSpace, IsRegexPrefix, IsOperator, BeforeRegex;
    CodeChar([l] + gap + r, sig, last);
    SpacesInCode(gap + r, l, Some(l));
    Assoc([l], " ", Minified(r, Code, ' ', Some(' ')));
  }

  lemma CommentLeaves(l: char, comment: string, r: string, sig: char, last: Option<char>)
    requires !IsSpace(l) && !IsQuote(l) && l != '/'
    requires IsBlockComment(comment, r) && 4 <= |comment| && ClosesBlock(comment, |comment| - 2)
    ensures Minified([l] + comment + r, Code, sig, last)
            == if IsIdent(l) && IsIdent(NextVisible(r)) then [l] + " " + Minified(r, Code, ' ', Some(' '))
               else [l] + Minified(r, Code, l, Some(l))
  {
    var s := comment + r;
    assert s[0] == '/' && s[1] == '*' && ([l] + comment + r)[1..] == s && ([l] + comment + r)[0] == l;
    CommentEnd(comment, r);
    hide Minified, IsSpace, IsQuote, IsIdent, BlockEnd, NextVisible, IsRegexPrefix;
    CodeChar([l] + comment + r, sig, last);
    CutComment(s, l);
    BlockComments(s[2..], l, Some(l));
    assert s[2..][|comment| - 2..] == r;
    Assoc([l], " ", Minified(r, Code, ' ', Some(' ')));
  }

  /** Code character l, then a block comment, then text r: a blank stays between them
      exactly when l and the next visible character of r are letters, digits, `_` or `$`. */
  lemma CommentKeptIff(l: char, comment: string, r: string, sig: char, last: Option<char>)
    requires !IsSpace(l) && !IsQuote(l) && l != '/'
    requires IsBlockComment(comment, r) && 4 <= |comment| && ClosesBlock(comment, |comment| - 2)
    ensures Minified([l] + comment + r, Code, sig, last)
            == if IsWord(l) && IsWord(NextVisible(r)) then [l] + " " + Minified(r, Code, ' ', Some(' '))
               else [l] + Minified(r, Code, l, Some(l))
  {
    CommentLeaves(l, comment, r, sig, last);
    TablesAre(l);
    TablesAre(NextVisible(r));
    hide Minified, IsIdent, IsWord, NextVisible, IsSpace;
  }

  lemma FrontOf(l: char, gap: string, r: string)
    requires gap != "" && AllSpace(gap)
    ensures var s := [l] + gap + r;
            s[0] == l && s[1..] == gap + r && s[1..][0] == s[1] == gap[0] && IsSpace(gap[0]) && CharAt(s, 1) != '/'
              && CharAt(s, 1) != '*'
  {}

  lemma CodeChar(s: string, sig: char, last: Option<char>)
    requires s != "" && !IsSpace(s[0]) && !IsQuote(s[0]) && (s[0] == '/' ==> !IsRegexPrefix(sig))
    requires s[0] == '/' ==> CharAt(s, 1) != '/' && CharAt(s, 1) != '*'
    ensures Minified(s, Code, sig, last) == [s[0]] + Minified(s[1..], Code, s[0], Some(s[0]))
  {
    assert Minified(s, Code, sig, last) == InCode(s, sig, last);
    hide Minified, IsSpace, IsQuote, IsRegexPrefix, IsPunct;
  }

  lemma SumParts()
    ensures "a + +b" == ['a'] + " " + "+ +b" && "+ +b" == ['+'] + " " + "+b" && "+b"[1..] == "b" && "b"[1..] == ""
    ensures ['b'] + "" == "b" && ['+'] + "b" == "+b" && ['+'] + "+b" == "++b" && ['a'] + "++b" == "a++b"
            && AllSpace(" ")
  {}

  lemma SumIsJoined()
    ensures Minified("a + +b", Code, NUL, None) == "a++b"
  {
    SumParts();
    hide Minified;
    BlankKeptIff('a', " ", "+ +b", NUL, None);
    BlankKeptIff('+', " ", "+b", 'a', Some('a'));
    CodeChar("+b", '+', Some('+'));
    CodeChar("b", '+', Some('+'));
    NothingLeft('b', Some('b'));
  }

  /** Two operators that mean something else when they are joined. */
  lemma JoinedOperatorsExample()
    ensures Output("a + +b") == "a++b"
  {
    SumIsJoined();
    hide Minified;
    assert !IsBlank("a++b"[3]);
  }

  lemma {:induction false} TrimKeepsVisible(s: string)
    ensures Visible(TrimEnd(s)) == Visible(s)
  {
    TrimStep(s);
    if s != "" && IsBlank(s[|s| - 1]) {
      var n := |s| - 1;
      assert s == s[..n] + [s[n]];
      VisibleConcat(s[..n], [s[n]]);
      TrimKeepsVisible(s[..n]);
      assert [s[n]][1..] == "";
    }
  }

  /** The last loop takes tabs, line feeds, carriage returns and spaces from the end, all
      of them and nothing else. */
  lemma {:induction false} EndIsTrimmed(s: string)
    ensures var t := TrimEnd(s);
            && t <= s && (t != "" ==> t[|t| - 1] as int !in {9, 10, 13, 32})
            && forall k :: |t| <= k < |s| ==> s[k] as int in {9, 10, 13, 32}
  {
    TrimStep(s);
    if s != "" {
      BlankCodes(s[|s| - 1]);
      if IsBlank(s[|s| - 1]) {
        EndIsTrimmed(s[..|s| - 1]);
      }
    }
    hide TrimEnd;
  }

  lemma BlankCodes(c: char)
    ensures IsBlank(c) <==> c as int in {9, 10, 13, 32}
  {}

  lemma VisibleTextSurvives(s: string)
    requires NoNul(s)
    ensures Visible(Output(s)) == Visible(Kept(Cut(s, Code, NUL)))
  {
    hide Cut, Minified, TrimEnd, Apart;
    WordsStayApart(s);
    ApartIsWoven(Cut(s, Code, NUL), Minified(s, Code, NUL, None), NUL, false, false, IsWord);
    WeavingKeepsVisible(Cut(s, Code, NUL), Minified(s, Code, NUL, None));
    TrimKeepsVisible(Minified(s, Code, NUL, None));
  }

  // ------------------------------------------------------------------ literals

  /** The inside of a literal: the end mark is in it only behind a backslash. */
  predicate Inside(t: string, end: char)
    decreases |t|
  {
    t != "" ==> if t[0] == '\\' then |t| > 1 && Inside(t[2..], end) else t[0] != end && Inside(t[1..], end)
  }

  lemma {:induction false} LiteralIsCopied(t: string, m: Mode, end: char, r: string, sig: char, last: Option<char>)
    requires (m.Str? && m.quote == end) || (m.Regex? && end == '/')
    requires Inside(t, end) && end != '\\'
    ensures Minified(t + ([end] + r), m, sig, last) == t + ([end] + Minified(r, Code, end, Some(end)))
    decreases |t|
  {
    var s := t + ([end] + r);
    LiteralStep(s, m, end, sig, last);
    hide Minified;
    var tail := [end] + Minified(r, Code, end, Some(end));
    if t == "" {
      assert s == [end] + r && s[0] == end && s[..1] == [end] && s[1..] == r;
      assert "" + tail == tail;
    } else {
      var n := if t[0] == '\\' then 2 else 1;
      CutAt(t, n, [end] + r);
      LiteralIsCopied(t[n..], m, end, r, sig, Some(t[n - 1]));
      CutAt(t, n, tail);
    }
  }

  lemma CutAt(t: string, n: nat, tail: string)
    requires 0 < n <= |t|
    ensures var s := t + tail;
            s[0] == t[0] && s[n - 1] == t[n - 1] && s[..n] == t[..n] && s[n..] == t[n..] + tail
              && t[..n] + (t[n..] + tail) == s
  {}

  lemma LiteralStep(s: string, m: Mode, end: char, sig: char, last: Option<char>)
    requires (m.Str? && m.quote == end) || (m.Regex? && end == '/')
    requires s != "" && end != '\\'
    ensures Minified(s, m, sig, last)
            == if s[0] == '\\' && |s| > 1 then s[..2] + Minified(s[2..], m, sig, Some(s[1]))
               else if s[0] == end then s[..1] + Minified(s[1..], Code, end, Some(s[0]))
               else s[..1] + Minified(s[1..], m, sig, Some(s[0]))
  {
    assert Minified(s, m, sig, last) == if m.Str? then InString(s, m.quote, sig) else InRegex(s, sig);
    hide Minified;
    assert s[..1] == [s[0]];
  }

  /** A string in one of the three kinds of quotes is printed as it is. */
  lemma StringIsCopied(quote: char, t: string, r: string, sig: char, last: Option<char>)
    requires (quote == '\'' || quote == '"' || quote == '`') && Inside(t, quote)
    ensures Minified([quote] + (t + ([quote] + r)), Code, sig, last)
            == [quote] + (t + ([quote] + Minified(r, Code, quote, Some(quote))))
  {
    var s := [quote] + (t + ([quote] + r));
    assert s[0] == quote && s[1..] == t + ([quote] + r);
    assert Minified(s, Code, sig, last) == InCode(s, sig, last);
    hide Minified;
    LiteralIsCopied(t, Str(quote), quote, r, sig, Some(quote));
  }

  /** At the start of the program and behind the seventeen characters a slash starts a
      regular expression, which is printed as it is; elsewhere it is an operator, and what
      follows it is code. */
  lemma SlashReads(t: string, r: string, sig: char, last: Option<char>)
    requires t != "" && t[0] != '*' && Inside(t, '/')
    ensures Minified("/" + (t + ("/" + r)), Code, sig, last)
            == "/" + if sig == NUL || BeforeRegex(sig) then t + ("/" + Minified(r, Code, '/', Some('/')))
                     else Minified(t + ("/" + r), Code, '/', Some('/'))
  {
    var s := "/" + (t + ("/" + r));
    assert s[0] == '/' && s[1..] == t + ("/" + r) && CharAt(s, 1) == t[0];
    assert Minified(s, Code, sig, last) == InCode(s, sig, last);
    TablesAre(sig);
    hide Minified, IsRegexPrefix, BeforeRegex, NextVisible, TrimLeft;
    LiteralIsCopied(t, Regex, '/', r, NUL, Some('/'));
  }

  /** A line comment goes up to a line feed or a carriage return, which leaves a newline
      unless one is there or nothing is. */
  lemma LineCommentLeaves(t: string, end: char, r: string, sig: char, last: Option<char>)
    requires end as int == 10 || end as int == 13
    requires forall k :: 0 <= k < |t| ==> t[k] as int != 10 && t[k] as int != 13
    ensures Minified("//" + (t + ([end] + r)), Code, sig, last)
            == if last.Some? && last.value as int != 10 then "\n" + Minified(r, Code, sig, Some('\n'))
               else Minified(r, Code, sig, last)
  {
    var s, u := "//" + (t + ([end] + r)), t + ([end] + r);
    assert s[0] == '/' && CharAt(s, 1) == '/' && s[2..] == u;
    assert Minified(s, Code, sig, last) == InCode(s, sig, last);
    LineEndIs(t, end, r);
    hide Minified, LineEnd, IsRegexPrefix;
    LineComments(u, sig, last);
    assert u[|t| + 1..] == r;
  }

  lemma {:induction false} LineEndIs(t: string, end: char, r: string)
    requires end as int == 10 || end as int == 13
    requires forall k :: 0 <= k < |t| ==> t[k] as int != 10 && t[k] as int != 13
    ensures LineEnd(t + ([end] + r)) == Some(|t| + 1)
  {
    var s := t + ([end] + r);
    if t == "" {
      assert s[0] == end;
    } else {
      assert s[0] == t[0] && s[1..] == t[1..] + ([end] + r);
      LineEndIs(t[1..], end, r);
    }
  }
}
