/** What the CSS minifier keeps: everything but comments and spaces; it never joins two
    words, and the spaces it prints are single. */
module MinifyCssContent {
  import opened Text
  import opened Weave
  import opened MinifyCss

  /** The style sheet cut into pieces. */
  function Cut(s: string): seq<Piece>
    decreases |s|
  {
    if s == "" then []
    else if s[0] == '/' && CharAt(s, 1) == '*' then CutGap(s, CommentLength(s, BlockEnd(s[2..])))
    else if IsSpace(s[0]) then CutGap(s, |s| - |TrimLeft(s)|)
    else [Keep([s[0]])] + Cut(s[1..])
  }

  function CutGap(s: string, n: nat): seq<Piece>
    requires 0 < n <= |s|
    decreases |s|, 0
  {
    [Gap(s[..n])] + Cut(s[n..])
  }

  /** The 21 characters beside which a blank is superfluous. */
  predicate Tight(c: char) {
    || c == ',' || c == ';' || c == ':' || c == '{' || c == '}' || c == '(' || c == ')' || c == '[' || c == ']'
    || c == '>' || c == '+' || c == '~' || c == '*' || c == '=' || c == '|' || c == '!' || c == '&' || c == '^'
    || c == '%' || c == '#' || c == '.'
  }

  /** The characters of selectors, property names and values: letters, digits, `_`, `-`,
      quotes, bytes beyond ASCII, and whatever else is visible and not tight. */
  predicate IsWord(c: char) {
    c != NUL && !IsSpace(c) && !Tight(c)
  }

  lemma NamesAreWords(c: char)
    requires IsAlnum(c) || c == '_' || c == '-' || c == '"' || c == '\'' || c as int >= 128
    ensures IsWord(c)
  {}

  lemma TightIsPunct(c: char)
    ensures IsPunct(c) <==> Tight(c)
  {}

  /** The pieces are the style sheet, and its gaps are its comments and space runs. */
  lemma {:induction false} PiecesTile(s: string)
    ensures Source(Cut(s)) == s && Blank(Cut(s), IsBlockComment)
    decreases |s|, 1
  {
    hide Source, Blank, BlockEnd, CommentLength, TrimLeft, IsSpace, At, IsBlockComment;
    if s == "" {
      NoPieces();
    } else if s[0] == '/' && CharAt(s, 1) == '*' {
      var n := CommentLength(s, BlockEnd(s[2..]));
      BlockCommentIsCut(s);
      OnePiece(s, Gap(s[..n]), s[n..]);
    } else if IsSpace(s[0]) {
      var n := |s| - |TrimLeft(s)|;
      SpacesFirst(s);
      OnePiece(s, Gap(s[..n]), s[n..]);
    } else {
      OnePiece(s, Keep([s[0]]), s[1..]);
    }
  }

  lemma NoPieces()
    ensures Source([]) == "" && Blank([], IsBlockComment)
  {}

  lemma SpacesFirst(s: string)
    requires s != "" && IsSpace(s[0])
    ensures |TrimLeft(s)| < |s| && AllSpace(s[..|s| - |TrimLeft(s)|])
  {}

  lemma {:induction false} OnePiece(s: string, p: Piece, rest: string)
    requires p.text + rest == s && p.text != "" && (p.Gap? ==> AllSpace(p.text) || IsBlockComment(p.text, rest))
    ensures Source([p] + Cut(rest)) == s && Blank([p] + Cut(rest), IsBlockComment)
    decreases |s|, 0
  {
    PiecesTile(rest);
    SourceCons(p, Cut(rest));
    hide Cut, IsBlockComment, AllSpace;
    assert ([p] + Cut(rest))[1..] == Cut(rest);
  }

  // ------------------------------------------------------------------ the weaving

  lemma {:induction false} Comments(s: string, last: Option<char>, pending: bool)
    ensures var n := BlockEnd(s);
            Minified(s, true, last, pending)
            == if n.None? then Minified("", false, last, pending)
               else var rest := s[n.value..];
                    Minified(rest, false, last, pending || NeedsSpace(last, NextVisible(rest)))
  {
    hide NeedsSpace, NextVisible, BlockEnd, CharAt;
    if s == "" {
      CommentEnds(last, pending);
    } else {
      BlockEndStep(s);
      assert Minified(s, true, last, pending) == InComment(s, last, pending);
      hide Minified;
      if !(s[0] == '*' && CharAt(s, 1) == '/') {
        Comments(s[1..], last, pending);
        var n := BlockEnd(s[1..]);
        assert n.Some? ==> s[1..][n.value..] == s[1 + n.value..];
      }
    }
  }

  lemma CommentEnds(last: Option<char>, pending: bool)
    ensures BlockEnd("") == None && Minified("", true, last, pending) == Minified("", false, last, pending)
  {}

  /** What the loop state knows about the text it has printed. */
  predicate Knows(s: string, last: Option<char>, left: char, gap: bool, pending: bool) {
    && (left == NUL || last == Some(left))
    && (gap && IsWord(left) && !pending && s != "" ==> !IsWord(s[0]))
  }

  /** `out` prints the pieces, after a separator of its own when a space is pending and
      the next character does not swallow it. */
  predicate Prints(ps: seq<Piece>, out: string, left: char, gap: bool, pending: bool) {
    Apart(ps, out, left, gap, false, IsWord)
    || (pending && out != "" && out[0] == ' ' && Apart(ps, out[1..], left, true, true, IsWord))
  }

  lemma PrintsGap(t: string, ps: seq<Piece>, out: string, left: char, gap: bool, pending: bool, pending': bool)
    requires Prints(ps, out, left, true, pending') && (pending ==> pending')
    ensures Prints([Gap(t)] + ps, out, left, gap, pending)
  {
    hide IsWord;
    assert ([Gap(t)] + ps)[1..] == ps;
  }

  lemma {:induction false} CssPrints(s: string, last: Option<char>, left: char, gap: bool, pending: bool)
    requires Knows(s, last, left, gap, pending) && (pending ==> gap)
    ensures Prints(Cut(s), Minified(s, false, last, pending), left, gap, pending)
    decreases |s|, 2
  {
    if s == "" {
      EmptyPrints(last, left, gap, pending);
    } else if s[0] == '/' && CharAt(s, 1) == '*' {
      CommentPrints(s, last, left, gap, pending);
    } else if IsSpace(s[0]) {
      SpacePrints(s, last, left, gap, pending);
    } else {
      CharPrints(s, last, left, gap, pending);
    }
  }

  lemma EmptyPrints(last: Option<char>, left: char, gap: bool, pending: bool)
    ensures Prints(Cut(""), Minified("", false, last, pending), left, gap, pending)
  {
    assert pending ==> " "[1..] == "";
  }

  lemma {:induction false} GapPrints(s: string, n: nat, last: Option<char>, left: char, gap: bool, pending: bool,
      pending': bool)
    requires 0 < n <= |s| && (pending ==> pending') && Knows(s[n..], last, left, true, pending')
    ensures Prints(CutGap(s, n), Minified(s[n..], false, last, pending'), left, gap, pending)
    decreases |s|, 0
  {
    hide Cut, Minified, Prints, Knows;
    CssPrints(s[n..], last, left, true, pending');
    PrintsGap(s[..n], Cut(s[n..]), Minified(s[n..], false, last, pending'), left, gap, pending, pending');
  }

  lemma WordFacts(c: char)
    ensures IsWord(c) ==> !IsPunct(c) && !IsSpace(c) && !Swallows(c) && c != NUL
    ensures Swallows(c) ==> IsPunct(c)
  {
    TightIsPunct(c);
  }

  lemma FirstVisible(s: string)
    ensures s != "" && IsWord(s[0]) ==> NextVisible(s) == s[0]
  {}

  lemma {:induction false} CommentPrints(s: string, last: Option<char>, left: char, gap: bool, pending: bool)
    requires s != "" && s[0] == '/' && CharAt(s, 1) == '*' && Knows(s, last, left, gap, pending)
    ensures Prints(Cut(s), Minified(s, false, last, pending), left, gap, pending)
    decreases |s|, 1
  {
    var end := BlockEnd(s[2..]);
    var n := CommentLength(s, end);
    var rest := s[n..];
    assert Cut(s) == CutGap(s, n);
    assert Minified(s, false, last, pending) == Minified(s[2..], true, last, pending);
    hide Cut, CutGap, Minified, Prints, BlockEnd, IsSpace, IsPunct, NextVisible, Swallows;
    Comments(s[2..], last, pending);
    assert end.Some? ==> s[2..][end.value..] == rest;
    WordFacts(left);
    WordFacts(CharAt(rest, 0));
    FirstVisible(rest);
    hide IsWord;
    var pending' := end.Some? && NeedsSpace(last, NextVisible(rest));
    assert end.None? ==> rest == "";
    GapPrints(s, n, last, left, gap, pending, pending || pending');
  }

  lemma {:induction false} SpacePrints(s: string, last: Option<char>, left: char, gap: bool, pending: bool)
    requires s != "" && IsSpace(s[0]) && Knows(s, last, left, gap, pending)
    ensures Prints(Cut(s), Minified(s, false, last, pending), left, gap, pending)
    decreases |s|, 1
  {
    NotSlash(s[0]);
    SpaceRun(s, last, pending);
    var rest := TrimLeft(s);
    var n := |s| - |rest|;
    assert Cut(s) == CutGap(s, n) && rest == s[n..];
    hide Cut, CutGap, Minified, Prints, IsSpace, IsPunct, TrimLeft, Swallows;
    WordFacts(left);
    WordFacts(CharAt(rest, 0));
    hide IsWord;
    GapPrints(s, n, last, left, gap, pending, pending || !DropsSpace(last, CharAt(rest, 0)));
  }

  lemma {:induction false} CharPrints(s: string, last: Option<char>, left: char, gap: bool, pending: bool)
    requires s != "" && !IsSpace(s[0]) && !(s[0] == '/' && CharAt(s, 1) == '*') && Knows(s, last, left, gap, pending)
    requires pending ==> gap
    ensures Prints(Cut(s), Minified(s, false, last, pending), left, gap, pending)
    decreases |s|, 1
  {
    var c := s[0];
    var r := Minified(s[1..], false, Some(c), false);
    var space := pending && !Swallows(c);
    assert Minified(s, false, last, pending) == (if space then " " else "") + [c] + r;
    assert Cut(s) == [Keep([c])] + Cut(s[1..]);
    hide Cut, Minified, IsSpace, IsPunct, Swallows, Prints;
    WordFacts(c);
    hide IsWord;
    CssPrints(s[1..], Some(c), c, false, false);
    PrintsAlone(Cut(s[1..]), r, c);
    PrintsChar(c, Cut(s[1..]), r, left, gap, pending, space);
  }

  lemma PrintsAlone(ps: seq<Piece>, out: string, left: char)
    requires Prints(ps, out, left, false, false)
    ensures Apart(ps, out, left, false, false, IsWord)
  {}

  lemma PrintsChar(c: char, ps: seq<Piece>, r: string, left: char, gap: bool, pending: bool, space: bool)
    requires Apart(ps, r, c, false, false, IsWord) && (space ==> pending)
    requires gap && IsWord(left) && IsWord(c) ==> space
    ensures Prints([Keep([c])] + ps, (if space then " " else "") + [c] + r, left, gap, pending)
  {
    hide IsWord, Apart;
    KeepApart([c], ps, r, left, if space then true else gap, space, IsWord);
    assert " " + [c] + r == " " + ([c] + r) && (" " + ([c] + r))[1..] == [c] + r;
    assert "" + [c] + r == [c] + r;
  }

  /** For every style sheet: text is printed verbatim and in order, each comment or space
      run becomes at most one separator, and words stay words. */
  lemma WordsStayApart(s: string)
    ensures Apart(Cut(s), Output(s), NUL, false, false, IsWord)
  {
    CssPrints(s, None, NUL, false, false);
  }

  lemma VisibleTextSurvives(s: string)
    ensures Visible(Output(s)) == Visible(Kept(Cut(s)))
  {
    hide Cut, Output, Apart;
    WordsStayApart(s);
    ApartIsWoven(Cut(s), Output(s), NUL, false, false, IsWord);
    WeavingKeepsVisible(Cut(s), Output(s));
  }

  // -------------------------------------------------------------------- the spaces

  /** Every space is a single ' '. */
  predicate SingleSpaces(s: string) {
    forall k :: 0 <= k < |s| && IsSpace(s[k]) ==> s[k] == ' ' && (k + 1 < |s| ==> !IsSpace(s[k + 1]))
  }

  lemma SinglePrefix(t: string, c: char, r: string)
    requires (t == "" || t == " ") && !IsSpace(c) && SingleSpaces(r)
    ensures SingleSpaces(t + [c] + r)
  {
    var s := t + [c] + r;
    forall k | 0 <= k < |s| && IsSpace(s[k])
      ensures s[k] == ' ' && (k + 1 < |s| ==> !IsSpace(s[k + 1]))
    {
      var j := k - |t| - 1;
      if j >= 0 {
        assert s[k] == r[j] && (k + 1 < |s| ==> s[k + 1] == r[j + 1]);
      }
    }
  }

  lemma {:induction false} SpacesAreSingle(s: string, inComment: bool, last: Option<char>, pending: bool)
    ensures SingleSpaces(Minified(s, inComment, last, pending))
    decreases |s|
  {
    if s == "" {
    } else if inComment {
      assert Minified(s, true, last, pending) == InComment(s, last, pending);
      hide SingleSpaces, Minified, NeedsSpace, NextVisible;
      if s[0] == '*' && CharAt(s, 1) == '/' {
        SpacesAreSingle(s[2..], false, last, pending || NeedsSpace(last, NextVisible(s[2..])));
      } else {
        SpacesAreSingle(s[1..], true, last, pending);
      }
    } else if s[0] == '/' && CharAt(s, 1) == '*' {
      SpacesAreSingle(s[2..], true, last, pending);
    } else if IsSpace(s[0]) {
      SpacesAreSingle(s[1..], false, last, pending || !DropsSpace(last, NextVisible(s)));
    } else {
      SpacesAreSingle(s[1..], false, Some(s[0]), false);
      SinglePrefix(if pending && !Swallows(s[0]) then " " else "", s[0], Minified(s[1..], false, Some(s[0]), false));
    }
  }

  // ------------------------------------------------------------- which blanks are kept

  lemma CharPrinted(s: string, last: Option<char>, pending: bool)
    requires s != "" && !IsSpace(s[0]) && !(s[0] == '/' && CharAt(s, 1) == '*')
    ensures Minified(s, false, last, pending)
            == (if pending && !Swallows(s[0]) then " " else "") + ([s[0]] + Minified(s[1..], false, Some(s[0]), false))
  {
    hide IsSpace, Swallows, DropsSpace;
    var m := Minified(s[1..], false, Some(s[0]), false);
    assert " " + [s[0]] + m == " " + ([s[0]] + m) && "" + [s[0]] + m == "" + ([s[0]] + m);
  }

  lemma InFront(l: char, gap: string, r: string)
    requires gap != ""
    ensures var s := [l] + gap + r;
            s[0] == l && s[1..] == gap + r && (gap + r)[0] == gap[0] && CharAt(s, 1) == gap[0] && s != ""
    ensures (gap + r)[|gap|..] == r
  {}

  lemma {:induction false} TrimGap(gap: string, r: string)
    requires AllSpace(gap) && r != "" && !IsSpace(r[0])
    ensures TrimLeft(gap + r) == r
  {
    hide IsSpace;
    if gap == "" {
      assert gap + r == r;
    } else {
      assert (gap + r)[0] == gap[0] && (gap + r)[1..] == gap[1..] + r;
      TrimGap(gap[1..], r);
    }
  }

  /** Two visible characters l and r[0] with spaces between them keep a blank exactly when
      neither is tight. */
  lemma SpaceKeptIff(l: char, gap: string, r: string, last: Option<char>)
    requires !IsSpace(l) && gap != "" && AllSpace(gap)
    requires r != "" && !IsSpace(r[0]) && !(r[0] == '/' && CharAt(r, 1) == '*')
    ensures Minified([l] + gap + r, false, last, false)
            == [l] + ((if !Tight(l) && !Tight(r[0]) then " " else "")
                      + ([r[0]] + Minified(r[1..], false, Some(r[0]), false)))
  {
    var s := [l] + gap + r;
    InFront(l, gap, r);
    assert IsSpace(gap[0]) && gap[0] != '*' by { assert AllSpace(gap); }
    TightIsPunct(l);
    TightIsPunct(r[0]);
    WordFacts(r[0]);
    hide IsSpace, IsPunct, Tight, IsWord, Swallows, AllSpace, Minified, TrimLeft;
    CharPrinted(s, last, false);
    SpaceRun(gap + r, Some(l), false);
    TrimGap(gap, r);
    CharPrinted(r, Some(l), !IsPunct(l) && !IsPunct(r[0]));
    var m := [l] + Minified(gap + r, false, Some(l), false);
    assert "" + m == m;
  }

  /** With a comment between them they keep a separator exactly when neither is tight or one
      of them is a sign, and r[0] is not one of the five characters that no space precedes. */
  lemma CommentKeptIff(l: char, comment: string, r: string, last: Option<char>)
    requires !IsSpace(l)
    requires IsBlockComment(comment, r) && 4 <= |comment| && ClosesBlock(comment, |comment| - 2)
    requires r != "" && !IsSpace(r[0]) && !(r[0] == '/' && CharAt(r, 1) == '*')
    ensures var c := r[0];
            var apart := (!Tight(l) && !Tight(c)) || l == '+' || l == '-' || c == '+' || c == '-';
            var kept := apart && c != ':' && c != ';' && c != '{' && c != '}' && c != ',';
            Minified([l] + comment + r, false, last, false)
            == [l] + ((if kept then " " else "") + ([c] + Minified(r[1..], false, Some(c), false)))
  {
    var s, t := [l] + comment + r, comment + r;
    InFront(l, comment, r);
    assert t[0] == '/' && t[1] == '*';
    CommentEnd(comment, r);
    TightIsPunct(l);
    TightIsPunct(r[0]);
    SwallowsAre(r[0]);
    hide IsSpace, IsPunct, Tight, Swallows, Minified, BlockEnd, TrimLeft;
    CharPrinted(s, last, false);
    CommentOpens(t, Some(l));
    Comments(t[2..], Some(l), false);
    assert t[2..][|comment| - 2..] == r;
    TrimVisible(r);
    CharPrinted(r, Some(l), NeedsSpace(Some(l), r[0]));
    var m := [l] + Minified(t, false, Some(l), false);
    assert "" + m == m;
  }

  lemma SwallowsAre(c: char)
    ensures Swallows(c) <==> c == ':' || c == ';' || c == '{' || c == '}' || c == ','
  {}

  lemma CommentOpens(t: string, last: Option<char>)
    requires |t| >= 2 && t[0] == '/' && t[1] == '*'
    ensures Minified(t, false, last, false) == Minified(t[2..], true, last, false)
  {
    hide InComment, IsSpace;
  }

  lemma TrimVisible(r: string)
    requires r != "" && !IsSpace(r[0])
    ensures NextVisible(r) == r[0]
  {}
}
