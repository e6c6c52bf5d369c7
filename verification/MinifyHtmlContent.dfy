/** What the HTML minifier keeps: everything but comments and space runs. */
module MinifyHtmlContent {
  import opened Text
  import opened Weave
  import opened MinifyHtml

  /** A tag cut into pieces, what follows it, and whether it was closed. */
  datatype TagCut = TagCut(pieces: seq<Piece>, rest: string, closed: bool)

  function GapLength(s: string): (n: nat)
    ensures n <= |s| && s[n..] == TrimLeft(s)
    ensures AllSpace(s[..n])
  {
    |s| - |TrimLeft(s)|
  }

  /** Inside a tag only space runs outside quotes are gaps. */
  function CutTag(s: string, quote: Option<char>): (t: TagCut)
    ensures |t.rest| <= |s|
    decreases |s|
  {
    if s == "" then TagCut([], "", false)
    else if quote == None && IsSpace(s[0]) then
      var t := CutTag(TrimLeft(s), None);
      t.(pieces := [Gap(s[..GapLength(s)])] + t.pieces)
    else if quote == None && s[0] == '>' then TagCut([Keep(">")], s[1..], true)
    else
      var t := CutTag(s[1..], if IsQuote(s[0]) then NextQuote(quote, s[0]) else quote);
      t.(pieces := [Keep([s[0]])] + t.pieces)
  }

  /** The document cut into pieces; `depth` counts the enclosing preserving elements. */
  function Cut(s: string, depth: nat): seq<Piece>
    decreases |s|
  {
    if s == "" then []
    else if s[0] == '<' then
      if CommentAt(s, depth) then
        var rest := AfterComment(s[4..]);
        [Gap(s[..|s| - |rest|])] + Cut(rest, depth)
      else if PlainAngle(s, depth) then [Keep("<")] + Cut(s[1..], depth)
      else
        var t := CutTag(s[1..], None);
        [Keep("<")] + t.pieces + Cut(t.rest, DepthAfter(depth, HeadOf(s[1..]), t.closed))
    else if depth == 0 && IsSpace(s[0]) then [Gap(s[..GapLength(s)])] + Cut(TrimLeft(s), depth)
    else [Keep([s[0]])] + Cut(s[1..], depth)
  }

  // ------------------------------------------------------------------ the pieces

  predicate ClosesComment(s: string, k: int) {
    0 <= k && k + 2 < |s| && s[k] == '-' && s[k + 1] == '-' && s[k + 2] == '>'
  }

  /** A comment: it ends with the first closing in it, or is not closed; then the loop
      leaves at most the last character of the document behind it. */
  predicate IsComment(t: string, behind: string) {
    && At(t, 0, "<!--")
    && (forall k :: 4 <= k < |t| - 3 ==> !ClosesComment(t, k))
    && ((7 <= |t| && ClosesComment(t, |t| - 3))
        || (|behind| <= 1 && forall k :: 4 <= k < |t| ==> !ClosesComment(t + behind, k)))
  }

  /** Only spaces are gaps. */
  predicate SpacesOnly(ps: seq<Piece>) {
    forall k :: 0 <= k < |ps| && ps[k].Gap? ==> AllSpace(ps[k].text)
  }

  lemma TagCuts(s: string, quote: Option<char>)
    ensures s == "" ==> CutTag(s, quote) == TagCut([], "", false)
    ensures s != "" && quote == None && IsSpace(s[0]) ==>
              var t := CutTag(TrimLeft(s), None);
              |TrimLeft(s)| < |s| && CutTag(s, quote) == t.(pieces := [Gap(s[..GapLength(s)])] + t.pieces)
    ensures s != "" && quote == None && s[0] == '>' ==> CutTag(s, quote) == TagCut([Keep(">")], s[1..], true)
    ensures s != "" && !(quote == None && (IsSpace(s[0]) || s[0] == '>')) ==>
              var t := CutTag(s[1..], if IsQuote(s[0]) then NextQuote(quote, s[0]) else quote);
              CutTag(s, quote) == t.(pieces := [Keep([s[0]])] + t.pieces)
  {
    hide NextQuote, IsQuote;
  }

  lemma {:induction false} TagPieces(s: string, quote: Option<char>)
    ensures var t := CutTag(s, quote); Source(t.pieces) + t.rest == s && SpacesOnly(t.pieces)
    decreases |s|
  {
    hide NextQuote, IsQuote, Source, SpacesOnly, IsSpace, TrimLeft, CutTag;
    TagCuts(s, quote);
    if s == "" {
      NoPieces();
    } else if quote == None && IsSpace(s[0]) {
      TagPieces(TrimLeft(s), None);
      FirstPiece(s, Gap(s[..GapLength(s)]), CutTag(TrimLeft(s), None));
    } else if quote == None && s[0] == '>' {
      NoPieces();
      FirstPiece(s, Keep(">"), TagCut([], s[1..], true));
      assert [Keep(">")] + [] == [Keep(">")];
    } else {
      var q := if IsQuote(s[0]) then NextQuote(quote, s[0]) else quote;
      TagPieces(s[1..], q);
      FirstPiece(s, Keep([s[0]]), CutTag(s[1..], q));
    }
  }

  lemma NoPieces()
    ensures Source([]) == "" && SpacesOnly([])
  {}

  lemma FirstPiece(s: string, p: Piece, t: TagCut)
    requires p.text + (Source(t.pieces) + t.rest) == s && (p.Gap? ==> AllSpace(p.text)) && SpacesOnly(t.pieces)
    ensures Source([p] + t.pieces) + t.rest == s && SpacesOnly([p] + t.pieces)
  {
    SourceCons(p, t.pieces);
    hide AllSpace;
  }

  lemma {:induction false} CommentIsSuffix(s: string)
    ensures AfterComment(s) == s[|s| - |AfterComment(s)|..]
  {
    if |s| >= 3 && s[..3] != "-->" {
      CommentIsSuffix(s[1..]);
    }
  }

  lemma {:induction false} SpacesInFront(ps: seq<Piece>, qs: seq<Piece>)
    requires SpacesOnly(ps) && Blank(qs, IsComment)
    ensures Blank(ps + qs, IsComment)
  {
    hide IsComment, AllSpace;
    if ps == [] {
      assert ps + qs == qs;
    } else {
      assert (ps + qs)[1..] == ps[1..] + qs && (ps + qs)[0] == ps[0];
      SpacesInFront(ps[1..], qs);
    }
  }

  /** The comment loop stops behind the first closing; without one, at the last character. */
  lemma {:induction false} AfterCommentIs(s: string)
    ensures var n := |s| - |AfterComment(s)|;
            && (forall k :: 0 <= k < n - 3 ==> !ClosesComment(s, k))
            && (ClosesComment(s, n - 3)
               || (|AfterComment(s)| <= 1 && forall k :: 0 <= k < |s| ==> !ClosesComment(s, k)))
  {
    if |s| >= 3 {
      assert s[..3] == [s[0], s[1], s[2]];
      if s[..3] != "-->" {
        AfterCommentIs(s[1..]);
        assert forall k :: 0 < k < |s| ==> ClosesComment(s, k) == ClosesComment(s[1..], k - 1);
      }
    }
  }

  lemma CommentIsCut(s: string)
    requires At(s, 0, "<!--")
    ensures var n := |s| - |AfterComment(s[4..])|; n >= 4 && s[n..] == AfterComment(s[4..]) && IsComment(s[..n], s[n..])
  {
    var n := |s| - |AfterComment(s[4..])|;
    var t := s[..n];
    CommentIsSuffix(s[4..]);
    AfterCommentIs(s[4..]);
    assert t[0..4] == s[0..4] && t + s[n..] == s;
    hide AfterComment;
    assert forall k :: 4 <= k < n - 2 ==> ClosesComment(t, k) == ClosesComment(s[4..], k - 4);
    assert forall k :: 4 <= k < |s| ==> ClosesComment(s, k) == ClosesComment(s[4..], k - 4);
  }

  /** The pieces are the document, and its gaps are its comments and space runs. */
  lemma {:induction false} PiecesTile(s: string, depth: nat)
    ensures Source(Cut(s, depth)) == s && Blank(Cut(s, depth), IsComment)
    decreases |s|, 2
  {
    hide At, DepthAfter, HeadOf;
    if s == "" {
    } else if s[0] == '<' {
      if CommentAt(s, depth) {
        CommentPieces(s, depth);
      } else if PlainAngle(s, depth) {
        OnePiece(s, Keep("<"), s[1..], depth);
      } else {
        TagAndRest(s, depth);
      }
    } else if depth == 0 && IsSpace(s[0]) {
      OnePiece(s, Gap(s[..GapLength(s)]), TrimLeft(s), depth);
    } else {
      OnePiece(s, Keep([s[0]]), s[1..], depth);
    }
  }

  lemma {:induction false} OnePiece(s: string, p: Piece, rest: string, depth: nat)
    requires p.text + rest == s && p.text != "" && (p.Gap? ==> AllSpace(p.text) || IsComment(p.text, rest))
    ensures Source([p] + Cut(rest, depth)) == s && Blank([p] + Cut(rest, depth), IsComment)
    decreases |s|, 0
  {
    PiecesTile(rest, depth);
    SourceCons(p, Cut(rest, depth));
    hide Cut, IsComment, AllSpace;
    assert ([p] + Cut(rest, depth))[1..] == Cut(rest, depth);
  }

  lemma {:induction false} CommentPieces(s: string, depth: nat)
    requires s != "" && s[0] == '<' && CommentAt(s, depth)
    ensures Source(Cut(s, depth)) == s && Blank(Cut(s, depth), IsComment)
    decreases |s|, 1
  {
    assert |s| >= 4;
    CommentIsCut(s);
    hide At, IsComment;
    var rest := AfterComment(s[4..]);
    var n := |s| - |rest|;
    hide Cut, AfterComment;
    OnePiece(s, Gap(s[..n]), rest, depth);
    CommentCut(s, depth);
  }

  lemma CommentCut(s: string, depth: nat)
    requires s != "" && s[0] == '<' && CommentAt(s, depth)
    ensures |s| >= 4
    ensures var rest := AfterComment(s[4..]); Cut(s, depth) == [Gap(s[..|s| - |rest|])] + Cut(rest, depth)
  {
    hide At, CutTag, IsSpace, Minified, AfterComment, GapLength, TrimLeft, PlainAngle, HeadOf, DepthAfter, CommentAt;
    CommentCase(s, depth, NUL);
  }

  lemma TagCutCase(s: string, depth: nat)
    requires s != "" && s[0] == '<' && !CommentAt(s, depth) && !PlainAngle(s, depth)
    ensures var t := CutTag(s[1..], None);
            Cut(s, depth) == [Keep("<")] + t.pieces + Cut(t.rest, DepthAfter(depth, HeadOf(s[1..]), t.closed))
  {}

  lemma {:induction false} TagAndRest(s: string, depth: nat)
    requires s != "" && s[0] == '<' && !CommentAt(s, depth) && !PlainAngle(s, depth)
    ensures Source(Cut(s, depth)) == s && Blank(Cut(s, depth), IsComment)
    decreases |s|, 1
  {
    hide At, DepthAfter, HeadOf, Cut, CutTag, Source, CommentAt, PlainAngle;
    TagCutCase(s, depth);
    TagPieces(s[1..], None);
    var t := CutTag(s[1..], None);
    var after := DepthAfter(depth, HeadOf(s[1..]), t.closed);
    PiecesTile(t.rest, after);
    SourceCons(Keep("<"), t.pieces);
    SourceConcat([Keep("<")] + t.pieces, Cut(t.rest, after));
    assert SpacesOnly([Keep("<")] + t.pieces);
    SpacesInFront([Keep("<")] + t.pieces, Cut(t.rest, after));
  }

  // ------------------------------------------------------------------ the weaving

  lemma SpaceRun(s: string, st: TagState)
    requires s != "" && IsSpace(s[0]) && st == TagState(None, st.wroteSpace)
    ensures var t := ScanTag(TrimLeft(s), TagState(None, true));
            ScanTag(s, st) == t.(out := (if st.wroteSpace then "" else " ") + t.out)
    decreases |s|
  {
    ScanUnfolds(s, st);
    var x := Step(s[0], st);
    assert x.out == (if st.wroteSpace then "" else " ") && x.state == TagState(None, true) && !x.stop;
    TrimUnfolds(s);
    if s[1..] != "" && IsSpace(s[1]) {
      SpaceRun(s[1..], x.state);
    }
    hide TrimLeft, ScanTag, Step, IsSpace;
    var t := ScanTag(TrimLeft(s), TagState(None, true));
    assert "" + t.out == t.out;
  }

  lemma TrimUnfolds(s: string)
    requires s != "" && IsSpace(s[0])
    ensures TrimLeft(s) == TrimLeft(s[1..]) && (s[1..] == "" || !IsSpace(s[1]) ==> TrimLeft(s) == s[1..])
  {}

  /** The tag loop prints the pieces of the tag. */
  lemma {:induction false} TagWeaves(s: string, st: TagState)
    requires st.wroteSpace ==> st.quote == None && (s == "" || !IsSpace(s[0]))
    ensures var a, t := ScanTag(s, st), CutTag(s, st.quote);
            a.rest == t.rest && a.closed == t.closed && Weaves(t.pieces, a.out)
    decreases |s|
  {
    hide Weaves, IsSpace, TrimLeft;
    if s == "" {
      NothingWeaves();
    } else if st.quote == None && IsSpace(s[0]) {
      SpaceRun(s, st);
      var rest := TrimLeft(s);
      TagWeaves(rest, TagState(None, true));
      WeavesGap(s[..GapLength(s)], " ", CutTag(rest, None).pieces, ScanTag(rest, TagState(None, true)).out);
    } else {
      ScanUnfolds(s, st);
      var x := Step(s[0], st);
      NothingWeaves();
      if x.stop {
        WeavesKeep(">", [], "");
        assert [Keep(">")] + [] == [Keep(">")] && ">" + "" == ">";
      } else {
        TagWeaves(s[1..], x.state);
        WeavesKeep([s[0]], CutTag(s[1..], x.state.quote).pieces, ScanTag(s[1..], x.state).out);
      }
    }
  }

  lemma NothingWeaves()
    ensures Weaves([], "")
  {}

  /** Minifying keeps every piece of the document, verbatim and in order, and puts at
      most one separator for each comment or space run. */
  lemma {:induction false} HtmlIsWoven(s: string, depth: nat, prev: char)
    ensures Weaves(Cut(s, depth), Minified(s, depth, prev))
    decreases |s|
  {
    if s == "" {
    } else if s[0] == '<' {
      if CommentAt(s, depth) {
        CommentWoven(s, depth, prev);
      } else if PlainAngle(s, depth) {
        hide Weaves, HeadOf;
        HtmlIsWoven(s[1..], depth, '<');
        WeavesKeep("<", Cut(s[1..], depth), Minified(s[1..], depth, '<'));
      } else {
        TagWoven(s, depth, prev);
      }
    } else if depth == 0 && IsSpace(s[0]) {
      SpaceWoven(s, prev);
    } else {
      hide Weaves, IsSpace;
      HtmlIsWoven(s[1..], depth, s[0]);
      WeavesKeep([s[0]], Cut(s[1..], depth), Minified(s[1..], depth, s[0]));
    }
  }

  lemma {:induction false} CommentWoven(s: string, depth: nat, prev: char)
    requires s != "" && s[0] == '<' && CommentAt(s, depth)
    ensures Weaves(Cut(s, depth), Minified(s, depth, prev))
    decreases |s|, 0
  {
    hide At, Weaves, Cut, Minified, AfterComment, CommentAt;
    CommentCut(s, depth);
    CommentCase(s, depth, prev);
    var rest := AfterComment(s[4..]);
    HtmlIsWoven(rest, depth, prev);
    WeavesGap(s[..|s| - |rest|], "", Cut(rest, depth), Minified(rest, depth, prev));
    assert "" + Minified(rest, depth, prev) == Minified(rest, depth, prev);
  }

  lemma {:induction false} TagWoven(s: string, depth: nat, prev: char)
    requires s != "" && s[0] == '<' && !CommentAt(s, depth) && !PlainAngle(s, depth)
    ensures Weaves(Cut(s, depth), Minified(s, depth, prev))
    decreases |s|, 0
  {
    hide At, Weaves, Cut, Minified, CommentAt, PlainAngle, HeadOf, DepthAfter, ScanTag, CutTag, Last;
    TagCutCase(s, depth);
    TagCase(s, depth, prev);
    AngleFirst(s);
    TagWeaves(s[1..], TAG_START);
    var a, t := ScanTag(s, TAG_START), CutTag(s[1..], None);
    WeavesKeep("<", t.pieces, ScanTag(s[1..], TAG_START).out);
    var after := DepthAfter(depth, HeadOf(s[1..]), t.closed);
    HtmlIsWoven(t.rest, after, Last(prev, a.out));
    WeavesConcat([Keep("<")] + t.pieces, a.out, Cut(t.rest, after), Minified(t.rest, after, Last(prev, a.out)));
  }

  lemma {:induction false} SpaceWoven(s: string, prev: char)
    requires s != "" && IsSpace(s[0])
    ensures Weaves(Cut(s, 0), Minified(s, 0, prev))
    decreases |s|, 0
  {
    var rest := TrimLeft(s);
    SpaceCase(s, prev);
    var next := if rest == "" then NUL else rest[0];
    var drops := DropsSpace(prev, next);
    assert Cut(s, 0) == [Gap(s[..GapLength(s)])] + Cut(rest, 0);
    hide Weaves, Cut, Minified, IsSpace, TrimLeft, DropsSpace;
    HtmlIsWoven(rest, 0, if drops then prev else ' ');
    WeavesGap(s[..GapLength(s)], if drops then "" else " ", Cut(rest, 0),
      Minified(rest, 0, if drops then prev else ' '));
    assert "" + Minified(rest, 0, prev) == Minified(rest, 0, prev);
  }

  /** The visible text of a page: everything but spaces and comments survives. */
  lemma VisibleTextSurvives(s: string)
    ensures Visible(Output(s)) == Visible(Kept(Cut(s, 0)))
  {
    hide Minified, Cut, TrimRight;
    var y := Minified(s, 0, NUL);
    HtmlIsWoven(s, 0, NUL);
    WeavingKeepsVisible(Cut(s, 0), y);
    TrimKeepsVisible(y);
  }
}
