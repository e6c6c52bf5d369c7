/** What the HTML minifier does inside pre, textarea, script and style. */
module MinifyHtmlPreserved {
  import opened Text
  import opened MinifyHtml

  // ---------------------------------------------------------------- one step at a time

  /** One round of the main loop: what it prints, what is left, and the depth behind it. */
  datatype Round = Round(out: string, rest: string, depth: nat)

  /** A tag at the start of s. */
  function TagRoundAt(s: string, depth: nat): (r: Round)
    requires s != "" && s[0] == '<'
    ensures |r.rest| < |s|
  {
    AngleFirst(s);
    var t := ScanTag(s, TAG_START);
    Round(t.out, t.rest, DepthAfter(depth, HeadOf(s[1..]), t.closed))
  }

  function CommentRoundAt(s: string, depth: nat): (r: Round)
    requires CommentAt(s, depth)
    ensures |r.rest| < |s|
  {
    Round("", AfterComment(s[4..]), depth)
  }

  function SpaceRoundAt(s: string, prev: char): (r: Round)
    requires s != "" && IsSpace(s[0])
    ensures |r.rest| < |s|
  {
    var rest := TrimLeft(s);
    Round(if DropsSpace(prev, CharAt(rest, 0)) then "" else " ", rest, 0)
  }

  function RoundAt(s: string, depth: nat, prev: char): (r: Round)
    requires s != ""
    ensures |r.rest| < |s|
  {
    if s[0] == '<' && CommentAt(s, depth) then CommentRoundAt(s, depth)
    else if s[0] == '<' && !PlainAngle(s, depth) then TagRoundAt(s, depth)
    else if s[0] != '<' && depth == 0 && IsSpace(s[0]) then SpaceRoundAt(s, prev)
    else Round([s[0]], s[1..], depth)
  }

  lemma RoundTail(s: string, depth: nat, prev: char)
    requires s != ""
    ensures var r := RoundAt(s, depth, prev); r.rest == s[|s| - |r.rest|..]
  {
    hide AfterComment, ScanTag, TrimLeft, HeadOf, DepthAfter, PlainAngle, DropsSpace;
    if CommentAt(s, depth) {
      CommentTail(s[4..]);
    }
    TagTail(s, TAG_START);
  }

  lemma {:induction false} CommentTail(s: string)
    ensures AfterComment(s) == s[|s| - |AfterComment(s)|..]
  {
    if |s| >= 3 && s[..3] != "-->" {
      CommentTail(s[1..]);
    }
  }

  lemma {:induction false} TagTail(s: string, st: TagState)
    ensures var t := ScanTag(s, st); |t.rest| <= |s| && t.rest == s[|s| - |t.rest|..]
  {
    if s != "" && !Step(s[0], st).stop {
      hide Step;
      TagTail(s[1..], Step(s[0], st).state);
    }
  }

  lemma RoundMinifies(s: string, depth: nat, prev: char)
    requires s != ""
    ensures var r := RoundAt(s, depth, prev);
            Minified(s, depth, prev) == r.out + Minified(r.rest, r.depth, Last(prev, r.out))
  {
    hide ScanTag, HeadOf, DepthAfter, At, AfterComment, TrimLeft, IsSpace, DropsSpace, Minified;
    var r := RoundAt(s, depth, prev);
    assert "" + Minified(r.rest, depth, prev) == Minified(r.rest, depth, prev);
    if s[0] == '<' {
      if CommentAt(s, depth) {
        CommentCase(s, depth, prev);
      } else if PlainAngle(s, depth) {
        CopiesAngle(s, depth, prev);
      } else {
        TagCase(s, depth, prev);
      }
    } else if depth == 0 && IsSpace(s[0]) {
      SpaceCase(s, prev);
    } else {
      TextCase(s, depth, prev);
    }
  }

  // ------------------------------------------------------------- part of a document

  /** What is printed for the first n characters, the depth behind them, and whether the
      depth was positive before every round. Not `exact` when a tag, a comment or a space
      run reaches over the end of the part. */
  datatype Part = Part(exact: bool, out: string, depth: nat, preserved: bool)

  function Walk(s: string, n: nat, depth: nat, prev: char): Part
    decreases |s|
  {
    if n == 0 then Part(true, "", depth, true)
    else if s == "" then Part(false, "", depth, true)
    else
      var r := RoundAt(s, depth, prev);
      var k := |s| - |r.rest|;
      if k > n then Part(false, "", depth, true)
      else
        var p := Walk(r.rest, n - k, r.depth, Last(prev, r.out));
        Part(p.exact, r.out + p.out, p.depth, depth > 0 && p.preserved)
  }

  lemma WalkUnfolds(s: string, n: nat, depth: nat, prev: char)
    requires 0 < n && s != "" && Walk(s, n, depth, prev).exact
    ensures var r := RoundAt(s, depth, prev);
            var k := |s| - |r.rest|;
            && 0 < k <= n
            && var p := Walk(r.rest, n - k, r.depth, Last(prev, r.out));
               p.exact && Walk(s, n, depth, prev) == Part(true, r.out + p.out, p.depth, depth > 0 && p.preserved)
  {
    hide RoundAt, Last;
  }

  lemma LastOfConcat(prev: char, a: string, b: string)
    ensures Last(Last(prev, a), b) == Last(prev, a + b)
  {}

  lemma Slices(s: string, rest: string, n: nat)
    requires |rest| <= |s| && rest == s[|s| - |rest|..] && |s| - |rest| <= n <= |s|
    ensures var k := |s| - |rest|; rest[n - k..] == s[n..] && s[..n] == s[..k] + rest[..n - k]
  {}

  lemma InTurn(all: string, a: string, behind: string, b: string, rest: string)
    requires all == a + behind && behind == b + rest
    ensures all == (a + b) + rest
  {}

  /** The output for s begins with what is printed for its first n characters. */
  ghost predicate Begins(s: string, n: nat, depth: nat, prev: char, p: Part) {
    n <= |s| && Minified(s, depth, prev) == p.out + Minified(s[n..], p.depth, Last(prev, p.out))
  }

  lemma BeginsStep(s: string, n: nat, depth: nat, prev: char, r: Round, p: Part)
    requires s != "" && r == RoundAt(s, depth, prev) && |s| - |r.rest| <= n
    requires Begins(r.rest, n - (|s| - |r.rest|), r.depth, Last(prev, r.out), p)
    ensures Begins(s, n, depth, prev, Part(true, r.out + p.out, p.depth, true))
  {
    hide RoundAt, Minified, Last;
    RoundMinifies(s, depth, prev);
    RoundTail(s, depth, prev);
    Slices(s, r.rest, n);
    var last := Last(prev, r.out);
    LastOfConcat(prev, r.out, p.out);
    InTurn(Minified(s, depth, prev), r.out, Minified(r.rest, r.depth, last), p.out,
      Minified(s[n..], p.depth, Last(last, p.out)));
  }

  lemma NothingBegins(s: string, depth: nat, prev: char)
    ensures Walk(s, 0, depth, prev) == Part(true, "", depth, true)
    ensures Begins(s, 0, depth, prev, Part(true, "", depth, true))
  {
    hide RoundAt, Minified;
    assert s[0..] == s && "" + Minified(s, depth, prev) == Minified(s, depth, prev);
  }

  lemma BeginsMore(s: string, n: nat, depth: nat, prev: char, p: Part, q: Part)
    requires Begins(s, n, depth, prev, p) && p.out == q.out && p.depth == q.depth
    ensures Begins(s, n, depth, prev, q)
  {
    hide Minified, Last;
  }

  lemma {:induction false} WalkMinifies(s: string, n: nat, depth: nat, prev: char)
    requires n <= |s| && Walk(s, n, depth, prev).exact
    ensures Begins(s, n, depth, prev, Walk(s, n, depth, prev))
    decreases |s|
  {
    hide RoundAt, Minified, Walk, Last, Begins;
    if n == 0 {
      NothingBegins(s, depth, prev);
    } else {
      var r := RoundAt(s, depth, prev);
      WalkUnfolds(s, n, depth, prev);
      var k := |s| - |r.rest|;
      var p := Walk(r.rest, n - k, r.depth, Last(prev, r.out));
      WalkMinifies(r.rest, n - k, r.depth, Last(prev, r.out));
      BeginsStep(s, n, depth, prev, r, p);
      BeginsMore(s, n, depth, prev, Part(true, r.out + p.out, p.depth, true), Walk(s, n, depth, prev));
    }
  }

  // --------------------------------------------------------------- what is changed

  /** Outside quotes every space of the tag is a single blank. */
  predicate TidyTag(s: string, quote: Option<char>) {
    if s == "" || (quote == None && s[0] == '>') then true
    else if quote == None && IsSpace(s[0]) then
      s[0] == ' ' && (|s| == 1 || !IsSpace(s[1])) && TidyTag(s[1..], None)
    else TidyTag(s[1..], if IsQuote(s[0]) then NextQuote(quote, s[0]) else quote)
  }

  /** One more character of a tag in front of what was copied, or not. */
  lemma OneMore(c: char, s: string, x: string, out: string, rest: string)
    requires |x| <= 1 && |rest| <= |s| && |out| <= |s| - |rest|
    ensures var t := [c] + s;
            var k := |t| - |rest|;
            |x + out| <= k && (x + out == t[..k] <==> x == [c] && out == s[..|s| - |rest|])
  {
    var t := [c] + s;
    var k := |t| - |rest|;
    assert t[..k] == [c] + s[..k - 1];
    if x + out == t[..k] {
      assert |x| == 1 && (x + out)[0] == x[0] && (x + out)[1..] == out;
      assert ([c] + s[..k - 1])[1..] == s[..k - 1];
    }
  }

  lemma {:induction false} TagCopiedIff(s: string, st: TagState)
    requires st.wroteSpace ==> st.quote == None
    ensures var t := ScanTag(s, st);
            && |t.rest| <= |s| && |t.out| <= |s| - |t.rest|
            && (t.out == s[..|s| - |t.rest|] <==> TidyTag(s, st.quote) && (st.wroteSpace && s != "" ==> !IsSpace(s[0])))
  {
    if s != "" {
      var x := Step(s[0], st);
      ScanUnfolds(s, st);
      TidyUnfolds(s, st);
      assert s == [s[0]] + s[1..];
      StepFacts(s[0], st);
      if !x.stop {
        TagCopiedIff(s[1..], x.state);
        hide ScanTag, TidyTag, Step, IsSpace;
        var t := ScanTag(s[1..], x.state);
        OneMore(s[0], s[1..], x.out, t.out, t.rest);
      } else {
        assert s[..1] == [s[0]];
      }
    }
  }

  lemma TidyUnfolds(s: string, st: TagState)
    requires s != "" && (st.wroteSpace ==> st.quote == None)
    ensures var x := Step(s[0], st);
            && (x.stop ==> TidyTag(s, st.quote) && !IsSpace(s[0]))
            && (!x.stop ==>
                  && (x.state.wroteSpace ==> x.state.quote == None)
                  && (TidyTag(s, st.quote) && (st.wroteSpace ==> !IsSpace(s[0]))
                      <==> (&& x.out == [s[0]] && TidyTag(s[1..], x.state.quote)
                            && (x.state.wroteSpace && s[1..] != "" ==> !IsSpace(s[1..][0])))))
  {
    assert |s| > 1 ==> s[1..][0] == s[1];
  }

  /** Every tag that is read as a tag in the first n characters is tidy. */
  predicate Tidy(s: string, n: nat, depth: nat)
    decreases |s|
  {
    n == 0 || s == ""
    || (var r := RoundAt(s, depth, NUL);
        var k := |s| - |r.rest|;
        TidyRound(s, depth) && (k <= n ==> Tidy(r.rest, n - k, r.depth)))
  }

  lemma TagRound(s: string, depth: nat, prev: char)
    requires s != "" && depth > 0 && s[0] == '<' && !PlainAngle(s, depth)
    ensures var t := ScanTag(s[1..], TAG_START);
            RoundAt(s, depth, prev) == Round(['<'] + t.out, t.rest, DepthAfter(depth, HeadOf(s[1..]), t.closed))
  {
    AngleFirst(s);
    hide ScanTag, HeadOf, DepthAfter, PlainAngle;
  }

  lemma CharRound(s: string, depth: nat, prev: char)
    requires s != "" && depth > 0 && (s[0] == '<' ==> PlainAngle(s, depth))
    ensures RoundAt(s, depth, prev) == Round([s[0]], s[1..], depth)
  {
    hide ScanTag, HeadOf, DepthAfter, PlainAngle;
  }

  predicate TidyRound(s: string, depth: nat)
    requires s != ""
  {
    s[0] == '<' && !PlainAngle(s, depth) ==> TidyTag(s[1..], None)
  }

  lemma RoundCopiesIff(s: string, depth: nat, prev: char)
    requires s != "" && depth > 0
    ensures var r := RoundAt(s, depth, prev);
            var k := |s| - |r.rest|;
            |r.out| <= k && RoundAt(s, depth, NUL) == r && (r.out == s[..k] <==> TidyRound(s, depth))
  {
    hide ScanTag, HeadOf, DepthAfter, TidyTag, PlainAngle, RoundAt;
    if s[0] == '<' && !PlainAngle(s, depth) {
      TagRound(s, depth, prev);
      TagRound(s, depth, NUL);
      TagCopiedIff(s[1..], TAG_START);
      var t := ScanTag(s[1..], TAG_START);
      assert s == ['<'] + s[1..];
      OneMore('<', s[1..], "<", t.out, t.rest);
    } else {
      CharRound(s, depth, prev);
      CharRound(s, depth, NUL);
      assert s[..1] == [s[0]];
    }
  }

  lemma TidyStep(s: string, n: nat, depth: nat)
    requires 0 < n && s != ""
    ensures var r := RoundAt(s, depth, NUL);
            var k := |s| - |r.rest|;
            k <= n ==> (Tidy(s, n, depth) <==> TidyRound(s, depth) && Tidy(r.rest, n - k, r.depth))
  {
    hide RoundAt, TidyRound;
  }

  lemma NothingCopied(s: string, depth: nat, prev: char)
    ensures Walk(s, 0, depth, prev).out == "" && s[..0] == "" && Tidy(s, 0, depth)
  {
    hide RoundAt, TidyRound;
  }

  /** A stretch of preserved text is printed as it is exactly when every tag in it that the
      minifier reads as one (a closing tag, or one that preserves) has single blanks only. */
  lemma {:induction false} StretchCopiedIff(s: string, n: nat, depth: nat, prev: char)
    requires n <= |s| && Walk(s, n, depth, prev).exact && Walk(s, n, depth, prev).preserved
    ensures var p := Walk(s, n, depth, prev);
            |p.out| <= n && (p.out == s[..n] <==> Tidy(s, n, depth))
    decreases |s|
  {
    hide RoundAt, Walk, Tidy, TidyRound, Last;
    if n == 0 {
      NothingCopied(s, depth, prev);
    } else {
      var r := RoundAt(s, depth, prev);
      var k := |s| - |r.rest|;
      WalkUnfolds(s, n, depth, prev);
      RoundCopiesIff(s, depth, prev);
      TidyStep(s, n, depth);
      RoundTail(s, depth, prev);
      Slices(s, r.rest, n);
      StretchCopiedIff(r.rest, n - k, r.depth, Last(prev, r.out));
      var p := Walk(r.rest, n - k, r.depth, Last(prev, r.out));
      PrefixesAgree(r.out, p.out, s[..k], r.rest[..n - k]);
    }
  }

  lemma PrefixesAgree(a: string, b: string, c: string, d: string)
    requires |a| <= |c| && |b| <= |d|
    ensures a + b == c + d <==> a == c && b == d
  {
    if a + b == c + d {
      assert |a| == |c|;
      assert (a + b)[..|a|] == a && (a + b)[|a|..] == b && (c + d)[..|c|] == c && (c + d)[|c|..] == d;
    }
  }

  // --------------------------------------------------------------------- documents

  lemma PartsOf(a: string, t: string, b: string)
    ensures (a + t + b)[|a|..] == t + b && (t + b)[|t|..] == b && (t + b)[..|t|] == t
  {}

  /** For a document a + t + b in which t stands inside a preserving element: all of t is
      read with a positive depth. It is printed between what a and b print, verbatim
      exactly when its tags are tidy; only the end of the document is trimmed. */
  lemma PreservedTextIsCopiedIff(a: string, t: string, b: string)
    requires Walk(a + t + b, |a|, 0, NUL).exact
    requires var p := Walk(a + t + b, |a|, 0, NUL);
             var q := Walk(t + b, |t|, p.depth, Last(NUL, p.out));
             q.exact && q.preserved
    ensures var p := Walk(a + t + b, |a|, 0, NUL);
            var q := Walk(t + b, |t|, p.depth, Last(NUL, p.out));
            && Output(a + t + b) == TrimRight(p.out + q.out + Minified(b, q.depth, Last(NUL, p.out + q.out)))
            && (q.out == t <==> Tidy(t + b, |t|, p.depth))
  {
    hide Walk, Minified, Tidy, TrimRight, Last, RoundAt;
    var s := a + t + b;
    var p := Walk(s, |a|, 0, NUL);
    var last := Last(NUL, p.out);
    var q := Walk(t + b, |t|, p.depth, last);
    PartsOf(a, t, b);
    WalkMinifies(s, |a|, 0, NUL);
    WalkMinifies(t + b, |t|, p.depth, last);
    LastOfConcat(NUL, p.out, q.out);
    Assoc(p.out, q.out, Minified(b, q.depth, Last(last, q.out)));
    StretchCopiedIff(t + b, |t|, p.depth, last);
  }

  /** In particular text without a tag in it, spaces, comments and quotes included. */
  lemma {:induction false} TextIsTidy(t: string, b: string, depth: nat, prev: char)
    requires depth > 0 && '<' !in t
    ensures Tidy(t + b, |t|, depth) && Walk(t + b, |t|, depth, prev) == Part(true, t, depth, true)
    decreases |t|
  {
    if t != "" {
      var s := t + b;
      assert s[0] == t[0] && t[0] in t && s[1..] == t[1..] + b && t == [t[0]] + t[1..];
      CharRound(s, depth, prev);
      CharRound(s, depth, NUL);
      TidyStep(s, |t|, depth);
      hide RoundAt, PlainAngle, TidyTag;
      TextIsTidy(t[1..], b, depth, t[0]);
      hide Tidy;
    }
  }

  predicate PlainTagText(word: string) {
    forall k :: 0 <= k < |word| ==> !IsQuote(word[k]) && !IsSpace(word[k]) && word[k] != '>'
  }

  lemma {:induction false} ScanWord(word: string, s: string, st: TagState)
    requires word != "" && PlainTagText(word) && st.quote == None
    ensures ScanTag(word + s, st) == (var t := ScanTag(s, TAG_START); t.(out := word + t.out))
    decreases |word|
  {
    assert (word + s)[0] == word[0] && (word + s)[1..] == word[1..] + s;
    ScanUnfolds(word + s, st);
    hide ScanTag;
    if |word| == 1 {
      assert word[1..] + s == s && word == [word[0]];
    } else {
      ScanWord(word[1..], s, TAG_START);
      var t := ScanTag(s, TAG_START);
      assert [word[0]] + (word[1..] + t.out) == word + t.out;
    }
  }

  lemma ScanClose(s: string, st: TagState)
    requires st.quote == None
    ensures ScanTag(">" + s, st) == TagScan(">", s, true)
  {
    assert (">" + s)[1..] == s;
  }

  lemma ScanTwoBlanks(s: string)
    ensures ScanTag("  " + s, TAG_START) == (var t := ScanTag(s, TagState(None, true)); t.(out := " " + t.out))
  {
    ScanUnfolds("  " + s, TAG_START);
    assert ("  " + s)[1..] == " " + s;
    ScanUnfolds(" " + s, TagState(None, true));
    assert (" " + s)[1..] == s;
    hide ScanTag;
    var t := ScanTag(s, TagState(None, true));
    assert "" + t.out == t.out;
  }

  lemma ScanPre(rest: string)
    ensures ScanTag("<pre" + (">" + rest), TAG_START) == TagScan("<pre>", rest, true)
  {
    hide ScanTag;
    ScanWord("<pre", ">" + rest, TAG_START);
    ScanClose(rest, TAG_START);
  }

  lemma ScanBlanks()
    ensures ScanTag("</b" + ("  " + ("x" + (">" + ""))), TAG_START) == TagScan("</b x>", "", true)
  {
    hide ScanTag;
    ScanWord("</b", "  " + ("x" + (">" + "")), TAG_START);
    ScanTwoBlanks("x" + (">" + ""));
    ScanWord("x", ">" + "", TagState(None, true));
    ScanClose("", TAG_START);
    assert "x" + ">" == "x>" && " " + "x>" == " x>" && "</b" + " x>" == "</b x>";
  }

  lemma HeadOfPre(rest: string)
    ensures HeadOf("pre" + (">" + rest)) == Head(false, true)
  {
    var t := "pre" + (">" + rest);
    assert t[..3] == "pre" && t[3] == '>' && t[0] == 'p' && t[1] == 'r' && t[2] == 'e';
    NameIs(t, 3);
    assert TrimLeft(t) == t;
    assert IsPreserveTag("pre") by { assert LowerAll("pre") == "pre"; }
    hide NameLength, TrimLeft, IsPreserveTag;
  }

  lemma HeadOfSlash(t: string)
    requires |t| >= 3 && t[0] == '/' && t[1] == 'b' && t[2] == ' '
    ensures HeadOf(t) == Head(true, false)
  {
    var u := t[1..];
    assert u[..1] == "b" && u[0] == 'b' && u[1] == ' ';
    NameIs(u, 1);
    assert TrimLeft(u) == u;
    assert !IsPreserveTag("b") by { assert |LowerAll("b")| == 1; }
    hide NameLength, TrimLeft, IsPreserveTag;
  }

  /** The blanks of a closing tag inside a preserved element are not kept. */
  lemma ClosingTagExample()
    ensures Output("<pre" + (">" + "</b  x>")) == "<pre>" + "</b x>"
  {
    var tag := "</b" + ("  " + ("x" + (">" + "")));
    TagIs();
    PreInFront(tag);
    ClosingTagAlone();
    hide Minified;
    NoTrim("<pre>" + "</b x>");
  }

  lemma TagIs()
    ensures "</b" + ("  " + ("x" + (">" + ""))) == "</b  x>"
    ensures ("<pre>" + "</b x>")[10] == '>'
  {}

  lemma NoTrim(m: string)
    requires |m| == 11 && m[10] == '>'
    ensures TrimRight(m) == m
  {}

  lemma PreInFront(rest: string)
    ensures Minified("<pre" + (">" + rest), 0, NUL) == "<pre>" + Minified(rest, 1, '>')
  {
    var s := "<pre" + (">" + rest);
    assert s[1..] == "pre" + (">" + rest) && s[0] == '<' && s[1] == 'p';
    assert !At(s, 0, "<!--") by { assert s[0..4][1] == s[1]; }
    ScanPre(rest);
    HeadOfPre(rest);
    hide ScanTag, HeadOf, Minified, At;
    TagCase(s, 0, NUL);
  }

  lemma ClosingTagAlone()
    ensures Minified("</b" + ("  " + ("x" + (">" + ""))), 1, '>') == "</b x>"
  {
    var s := "</b" + ("  " + ("x" + (">" + "")));
    assert s[0] == '<' && s[1] == '/' && s[2] == 'b' && s[3] == ' ';
    ScanBlanks();
    HeadOfSlash(s[1..]);
    hide ScanTag, HeadOf, Minified, At;
    TagCase(s, 1, '>');
    NothingLeft("", 1, '>');
    assert "</b x>" + "" == "</b x>";
  }
}
