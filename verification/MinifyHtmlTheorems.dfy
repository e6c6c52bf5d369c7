/** Minifying HTML twice changes nothing more, and preserved text is kept as it is. */
module MinifyHtmlTheorems {
  import opened Text
  import opened MinifyHtml

  // ----------------------------------------------------------- tag names are stable

  lemma TrimKeeps(s: string)
    requires s == "" || !IsSpace(s[0])
    ensures TrimLeft(s) == s
  {}

  lemma TrimOne(c: char, s: string)
    requires IsSpace(c)
    ensures TrimLeft([c] + s) == TrimLeft(s)
  {
    assert ([c] + s)[1..] == s;
  }

  /** An unfinished tag is the end of the text: nothing follows it. */
  ghost predicate Follows(r: string, s: string, st: TagState) {
    !ScanTag(s, st).closed ==> r == ""
  }

  /** Scanning a scanned tag again copies it. */
  lemma {:induction false} ScanIsIdempotent(s: string, st: TagState, r: string)
    requires Follows(r, s, st)
    ensures var t := ScanTag(s, st); ScanTag(t.out + r, st) == TagScan(t.out, r, t.closed)
    decreases |s|
  {
    hide Step, ScanTag, IsSpace;
    ScanEmpty(st);
    if s != "" {
      var x := Step(s[0], st);
      StepFacts(s[0], st);
      ScanUnfolds(s, st);
      if x.stop {
        Front(x.out, "", r);
        ScanUnfolds(x.out + r, st);
        assert x.out + "" + r == x.out + r && "" + r == r;
      } else {
        var t := ScanTag(s[1..], x.state);
        ScanIsIdempotent(s[1..], x.state, r);
        if x.out == "" {
          assert x.out + t.out == t.out;
        } else {
          Front(x.out, t.out, r);
          ScanUnfolds(x.out + t.out + r, st);
        }
      }
    } else {
      assert "" + r == r == "";
    }
  }

  lemma ScanEmpty(st: TagState)
    ensures ScanTag("", st) == TagScan("", "", false)
  {}

  lemma Front(x: string, a: string, r: string)
    requires |x| == 1
    ensures var y := x + a + r; y != "" && y[0] == x[0] && y[1..] == a + r
  {}

  /** The name at the start of u is the name at the start of the scanned text. */
  lemma {:induction false} NameSurvives(u: string, st: TagState, r: string)
    requires Follows(r, u, st) && (u == "" || !IsSpace(u[0])) && st.quote == None
    ensures var o := ScanTag(u, st).out + r;
            (u == "" ==> o == "") && (u != "" ==> o != "" && o[0] == u[0]) && o[..NameLength(o)] == u[..NameLength(u)]
    decreases |u|
  {
    if u != "" {
      var x := Step(u[0], st);
      var o := ScanTag(u, st).out + r;
      assert x.out == [u[0]];
      if IsNameChar(u[0]) {
        assert !x.stop && x.state == TagState(None, false);
        hide Step;
        var o' := ScanTag(u[1..], x.state).out + r;
        assert o[1..] == o';
        if u[1..] == "" || !IsSpace(u[1]) {
          NameSurvives(u[1..], x.state, r);
        } else {
          SpaceIsKept(u[1..], r);
        }
        NameGrows(u);
        NameGrows(o);
      }
    }
  }

  lemma NameGrows(u: string)
    requires u != "" && IsNameChar(u[0])
    ensures u[..NameLength(u)] == [u[0]] + u[1..][..NameLength(u[1..])]
  {}

  lemma SpaceIsKept(s: string, r: string)
    requires s != "" && IsSpace(s[0])
    ensures var o := ScanTag(s, TAG_START).out + r; o != "" && o[0] == ' ' && NameLength(o) == 0 && NameLength(s) == 0
  {}

  lemma {:induction false} ScanAfterSpace(t: string)
    ensures ScanTag(t, TagState(None, true)) == ScanTag(TrimLeft(t), TagState(None, true))
  {
    hide ScanTag, Step, TrimLeft, IsSpace;
    TrimKeepsOr(t);
    if t != "" && IsSpace(t[0]) {
      ScanUnfolds(t, TagState(None, true));
      SpaceInTag(t[0], true);
      ScanAfterSpace(t[1..]);
      var n := ScanTag(t[1..], TagState(None, true));
      assert "" + n.out == n.out;
    }
  }

  /** One space of a run, the first of which is printed. */
  lemma SpaceInTag(c: char, wroteSpace: bool)
    requires IsSpace(c)
    ensures Step(c, TagState(None, wroteSpace)) == TagStep(if wroteSpace then "" else " ", TagState(None, true), false)
  {}

  lemma TrimKeepsOr(t: string)
    ensures TrimLeft(t) == if t != "" && IsSpace(t[0]) then TrimLeft(t[1..]) else t
  {}

  lemma TrimSkipsAll(t: string)
    ensures TrimLeft(t) == "" || !IsSpace(TrimLeft(t)[0])
  {}

  /** Skipping the spaces before the name. */
  lemma NameAfterSpace(t: string, r: string)
    requires Follows(r, t, TAG_START)
    ensures var o := TrimLeft(ScanTag(t, TAG_START).out + r);
            var u := TrimLeft(t);
            o[..NameLength(o)] == u[..NameLength(u)]
  {
    TrimSkipsAll(t);
    if t != "" && IsSpace(t[0]) {
      NameAfterSomeSpace(t, r);
    } else {
      TrimKeeps(t);
      hide ScanTag, NameLength, TrimLeft;
      NameSurvives(t, TAG_START, r);
      TrimKeeps(ScanTag(t, TAG_START).out + r);
    }
  }

  lemma NameAfterSomeSpace(t: string, r: string)
    requires Follows(r, t, TAG_START) && t != "" && IsSpace(t[0])
    ensures var o := TrimLeft(ScanTag(t, TAG_START).out + r);
            var u := TrimLeft(t);
            o[..NameLength(o)] == u[..NameLength(u)]
  {
    hide ScanTag, NameLength, TrimLeft, Step, IsSpace;
    var u, st := TrimLeft(t), TagState(None, true);
    TrimKeepsOr(t);
    TrimSkipsAll(t);
    SpaceInTag(t[0], false);
    ScanUnfolds(t, TAG_START);
    ScanAfterSpace(t[1..]);
    var scanned := ScanTag(u, st).out + r;
    assert ScanTag(t, TAG_START).out + r == [' '] + scanned by {
      assert " " + ScanTag(u, st).out + r == " " + scanned;
    }
    NameSurvives(u, st, r);
    assert IsSpace(' ') by {
      BlankIsSpace();
    }
    TrimOne(' ', scanned);
    TrimKeeps(scanned);
  }

  lemma BlankIsSpace()
    ensures IsSpace(' ')
  {}

  /** Collapsing the spaces of a tag keeps what the tag is. */
  lemma HeadSurvives(t: string, r: string)
    requires Follows(r, t, TAG_START)
    ensures HeadOf(ScanTag(t, TAG_START).out + r) == HeadOf(t)
  {
    var o := ScanTag(t, TAG_START).out + r;
    if t != "" && t[0] == '/' {
      SlashFirst(t, r);
      NameAfterSpace(t[1..], r);
    } else {
      NoSlashFirst(t, r);
      NameAfterSpace(t, r);
    }
    hide IsPreserveTag, NameLength, TrimLeft, ScanTag;
  }

  lemma SlashFirst(t: string, r: string)
    requires t != "" && t[0] == '/'
    ensures var o := ScanTag(t, TAG_START).out + r;
            o != "" && o[0] == '/' && o[1..] == ScanTag(t[1..], TAG_START).out + r
    ensures ScanTag(t, TAG_START).closed == ScanTag(t[1..], TAG_START).closed
  {}

  lemma NoSlashFirst(t: string, r: string)
    requires (t == "" || t[0] != '/') && Follows(r, t, TAG_START)
    ensures var o := ScanTag(t, TAG_START).out + r; o == "" || o[0] != '/'
  {}

  // ------------------------------------------------------- plain angles are stable

  /** Equal up to and including the first `<`. */
  predicate Agree(a: string, b: string) {
    if a == "" || b == "" then a == b
    else a[0] == b[0] && (a[0] == '<' || Agree(a[1..], b[1..]))
  }

  lemma {:induction false} PreservedAgrees(s: string, depth: nat, prev: char)
    requires depth > 0
    ensures Agree(s, Minified(s, depth, prev))
  {
    if s != "" {
      if s[0] == '<' {
        AngleStarts(s, depth, prev);
      } else {
        PreservedAgrees(s[1..], depth, s[0]);
        CopiesChar(s[0], s[1..], depth, prev);
        assert s == [s[0]] + s[1..];
      }
      hide Minified;
    }
  }

  lemma AngleStarts(s: string, depth: nat, prev: char)
    requires s != "" && s[0] == '<' && depth > 0
    ensures Minified(s, depth, prev) != "" && Minified(s, depth, prev)[0] == '<'
  {
    AngleFirst(s);
    hide ScanTag, HeadOf, DepthAfter;
  }

  lemma {:induction false} AgreeName(a: string, b: string)
    requires Agree(a, b)
    ensures a[..NameLength(a)] == b[..NameLength(b)]
    decreases |a|
  {
    if a != "" && IsNameChar(a[0]) {
      AgreeName(a[1..], b[1..]);
      assert a[..NameLength(a)] == [a[0]] + a[1..][..NameLength(a[1..])];
      assert b[..NameLength(b)] == [b[0]] + b[1..][..NameLength(b[1..])];
    }
  }

  lemma {:induction false} AgreeTrim(a: string, b: string)
    requires Agree(a, b)
    ensures Agree(TrimLeft(a), TrimLeft(b))
    decreases |a|
  {
    if a != "" && IsSpace(a[0]) {
      AgreeTrim(a[1..], b[1..]);
    }
  }

  lemma AgreeHead(a: string, b: string)
    requires Agree(a, b)
    ensures HeadOf(a) == HeadOf(b)
  {
    var closing := a != "" && a[0] == '/';
    var a', b' := if closing then a[1..] else a, if closing then b[1..] else b;
    AgreeTrim(a', b');
    AgreeName(TrimLeft(a'), TrimLeft(b'));
    hide IsPreserveTag, NameLength, TrimLeft;
  }

  // ------------------------------------------------------------------- idempotence

  /** The output of a tag is read as the same tag again. */
  lemma TagAgain(s: string, depth: nat, r: string)
    requires s != "" && s[0] == '<' && !CommentAt(s, depth) && !PlainAngle(s, depth)
    requires Follows(r, s, TAG_START)
    ensures var t := ScanTag(s, TAG_START);
            var y := t.out + r;
            && y != "" && y[0] == '<' && !CommentAt(y, depth) && !PlainAngle(y, depth)
            && ScanTag(y, TAG_START) == TagScan(t.out, r, t.closed)
            && HeadOf(y[1..]) == HeadOf(s[1..])
  {
    hide HeadOf, At, ScanTag;
    AngleFirst(s);
    TagHeadAgain(s, r);
    ScanIsIdempotent(s, TAG_START, r);
    if depth == 0 {
      NotComment(s, r);
    }
  }

  lemma TagHeadAgain(s: string, r: string)
    requires s != "" && s[0] == '<' && Follows(r, s, TAG_START)
    ensures var y := ScanTag(s, TAG_START).out + r; y != "" && y[0] == '<' && HeadOf(y[1..]) == HeadOf(s[1..])
  {
    AngleFirst(s);
    hide HeadOf, ScanTag;
    var y := ScanTag(s, TAG_START).out + r;
    assert y[1..] == ScanTag(s[1..], TAG_START).out + r;
    HeadSurvives(s[1..], r);
  }

  /** A tag does not turn into a comment. */
  lemma NotComment(s: string, r: string)
    requires s != "" && s[0] == '<' && !At(s, 0, "<!--") && Follows(r, s, TAG_START)
    ensures !At(ScanTag(s, TAG_START).out + r, 0, "<!--")
  {
    var y := ScanTag(s, TAG_START).out + r;
    AtIsPrefix(y, "<!--");
    AtIsPrefix(s, "<!--");
    hide At, ScanTag;
    if "<!--" <= y {
      PlainPrefix("<!--", s, r);
    }
  }

  lemma AtIsPrefix(s: string, p: string)
    ensures At(s, 0, p) <==> p <= s
  {
    assert |p| <= |s| ==> s[0..|p|] == s[..|p|];
  }

  /** Characters at the start that are neither space, quote nor `>` were there before. */
  lemma {:induction false} PlainPrefix(p: string, s: string, r: string)
    requires Follows(r, s, TAG_START) && p <= ScanTag(s, TAG_START).out + r
    requires forall k :: 0 <= k < |p| ==> !IsSpace(p[k]) && !IsQuote(p[k]) && p[k] != '>'
    ensures p <= s
    decreases |p|
  {
    if p != "" {
      assert s != "";
      FirstIsPlain(s, r);
      hide ScanTag;
      PlainPrefix(p[1..], s[1..], r);
    }
  }

  /** A first character that is neither space, quote nor `>` was there before. */
  lemma FirstIsPlain(s: string, r: string)
    requires s != ""
    ensures var y := ScanTag(s, TAG_START).out + r;
            y != "" && (!IsSpace(y[0]) && !IsQuote(y[0]) && y[0] != '>' ==>
              s[0] == y[0] && y[1..] == ScanTag(s[1..], TAG_START).out + r
              && ScanTag(s, TAG_START).closed == ScanTag(s[1..], TAG_START).closed)
  {
    hide ScanTag;
    ScanUnfolds(s, TAG_START);
    var x := Step(s[0], TAG_START);
    if x.state == TAG_START && !x.stop {
      var t := ScanTag(s[1..], TAG_START);
      assert x.out != "" ==> (x.out + t.out + r)[1..] == t.out + r;
    }
  }

  /** A `<` that was ordinary preserved text is ordinary text again. */
  lemma PlainAgain(s: string, depth: nat)
    requires s != "" && s[0] == '<' && PlainAngle(s, depth)
    ensures var r := Minified(s[1..], depth, '<'); PlainAngle("<" + r, depth) && ("<" + r)[1..] == r
  {
    var r := Minified(s[1..], depth, '<');
    PreservedAgrees(s[1..], depth, '<');
    AgreeHead(s[1..], r);
    hide HeadOf, Minified, Agree;
    assert ("<" + r)[1..] == r;
  }

  /** After a kept space the output goes on with the character that follows the run. */
  lemma SpaceAgain(rest: string, prev: char)
    requires rest != "" && !IsSpace(rest[0]) && rest[0] != '<' && !DropsSpace(prev, rest[0])
    ensures var r := Minified(rest, 0, ' ');
            && r != "" && r[0] == rest[0] && TrimLeft(" " + r) == r
  {
    var r := Minified(rest, 0, ' ');
    TrimOne(' ', r);
    TrimKeeps(r);
    assert " " + r == [' '] + r;
    hide TrimLeft;
  }

  /** Minifying minified text, before the final trim, copies it. */
  lemma {:induction false} MinifiedIsFixed(s: string, depth: nat, prev: char)
    ensures Minified(Minified(s, depth, prev), depth, prev) == Minified(s, depth, prev)
    decreases |s|, 1
  {
    if s == "" {
    } else if s[0] == '<' {
      if CommentAt(s, depth) {
        hide At;
        MinifiedIsFixed(AfterComment(s[4..]), depth, prev);
      } else if PlainAngle(s, depth) {
        PlainIsFixed(s, depth, prev);
      } else {
        TagIsFixed(s, depth, prev);
      }
    } else if depth == 0 && IsSpace(s[0]) {
      SpaceIsFixed(s, prev);
    } else {
      CharIsFixed(s, depth, prev);
    }
  }

  lemma {:induction false} CharIsFixed(s: string, depth: nat, prev: char)
    requires s != "" && s[0] != '<' && (depth > 0 || !IsSpace(s[0]))
    ensures Minified(Minified(s, depth, prev), depth, prev) == Minified(s, depth, prev)
    decreases |s|, 0
  {
    assert s == [s[0]] + s[1..];
    MinifiedIsFixed(s[1..], depth, s[0]);
    hide Minified;
    CopiesChar(s[0], s[1..], depth, prev);
    CopiesChar(s[0], Minified(s[1..], depth, s[0]), depth, prev);
  }

  lemma {:induction false} PlainIsFixed(s: string, depth: nat, prev: char)
    requires s != "" && s[0] == '<' && PlainAngle(s, depth)
    ensures Minified(Minified(s, depth, prev), depth, prev) == Minified(s, depth, prev)
    decreases |s|, 0
  {
    MinifiedIsFixed(s[1..], depth, '<');
    PlainAgain(s, depth);
    hide PlainAngle, Minified;
    CopiesAngle(s, depth, prev);
    CopiesAngle("<" + Minified(s[1..], depth, '<'), depth, prev);
  }

  lemma {:induction false} SpaceIsFixed(s: string, prev: char)
    requires s != "" && IsSpace(s[0])
    ensures Minified(Minified(s, 0, prev), 0, prev) == Minified(s, 0, prev)
    decreases |s|, 0
  {
    var rest := TrimLeft(s);
    SpaceCase(s, prev);
    hide Minified;
    if DropsSpace(prev, if rest == "" then NUL else rest[0]) {
      MinifiedIsFixed(rest, 0, prev);
    } else {
      MinifiedIsFixed(rest, 0, ' ');
      SpaceAgain(rest, prev);
      SpaceCase(" " + Minified(rest, 0, ' '), prev);
    }
  }

  lemma {:induction false} TagIsFixed(s: string, depth: nat, prev: char)
    requires s != "" && s[0] == '<' && !CommentAt(s, depth) && !PlainAngle(s, depth)
    ensures Minified(Minified(s, depth, prev), depth, prev) == Minified(s, depth, prev)
    decreases |s|, 0
  {
    var t := ScanTag(s, TAG_START);
    var depth', last := DepthAfter(depth, HeadOf(s[1..]), t.closed), Last(prev, t.out);
    var r := Minified(t.rest, depth', last);
    MinifiedIsFixed(t.rest, depth', last);
    TagAgain(s, depth, r);
    hide HeadOf, ScanTag, PlainAngle, CommentAt;
  }

  // ---------------------------------------------------------------- the final trim

  ghost predicate EndsInText(t: string) {
    t == "" || !IsSpace(t[|t| - 1])
  }

  lemma {:induction false} TrimAllSpaces(w: string)
    requires AllSpace(w)
    ensures TrimLeft(w) == ""
  {
    if w != "" {
      TrimAllSpaces(w[1..]);
    }
  }

  lemma {:induction false} TrimBefore(t: string, w: string)
    requires AllSpace(w) && EndsInText(t)
    ensures t != "" ==> TrimLeft(t + w) == TrimLeft(t) + w && TrimLeft(t) != ""
    ensures t == "" ==> TrimLeft(t + w) == TrimLeft(t)
  {
    if t == "" {
      assert t + w == w;
      TrimAllSpaces(w);
    } else if IsSpace(t[0]) {
      assert (t + w)[1..] == t[1..] + w;
      TrimBefore(t[1..], w);
    }
  }

  lemma {:induction false} NameBefore(u: string, w: string)
    requires AllSpace(w)
    ensures NameLength(u + w) == NameLength(u) && (u + w)[..NameLength(u)] == u[..NameLength(u)]
    decreases |u|
  {
    if u == "" {
      assert u + w == w;
    } else if IsNameChar(u[0]) {
      assert (u + w)[1..] == u[1..] + w;
      NameBefore(u[1..], w);
    }
  }

  /** Spaces at the end do not change what a tag is. */
  lemma HeadBefore(t: string, w: string)
    requires AllSpace(w) && EndsInText(t)
    ensures HeadOf(t + w) == HeadOf(t)
  {
    var u := if t != "" && t[0] == '/' then t[1..] else t;
    assert t != "" && t[0] == '/' ==> (t + w)[1..] == t[1..] + w;
    assert t == "" ==> t + w == w && (w == "" || w[0] != '/');
    TrimBefore(u, w);
    NameBefore(TrimLeft(u), w);
    hide IsPreserveTag, NameLength, TrimLeft;
  }

  lemma {:induction false} RestIsSuffix(s: string, st: TagState)
    ensures var t := ScanTag(s, st); |t.rest| <= |s| && t.rest == s[|s| - |t.rest|..]
  {
    if s != "" {
      var x := Step(s[0], st);
      ScanUnfolds(s, st);
      hide Step, ScanTag;
      if !x.stop {
        RestIsSuffix(s[1..], x.state);
      }
    }
  }

  /** A tag that the scan copies is also copied without the spaces at the end. */
  lemma {:induction false} ScanBefore(t: string, w: string, st: TagState)
    requires AllSpace(w) && EndsInText(t)
    requires ScanTag(t + w, st).out + ScanTag(t + w, st).rest == t + w
    ensures var y, x := ScanTag(t + w, st), ScanTag(t, st);
            && x.out + x.rest == t && x.closed == y.closed
            && (y.closed ==> x.out == y.out && x.rest + w == y.rest)
    decreases |t|
  {
    hide ScanTag, Step, IsSpace, EndsInText, AllSpace;
    if t == "" {
      assert t + w == w;
      ScanEmpty(st);
      NeverCloses(w, st);
    } else {
      var x := Step(t[0], st);
      TailOf(t, w);
      ScanUnfolds(t + w, st);
      ScanUnfolds(t, st);
      StepFacts(t[0], st);
      if x.stop {
        StopCopies(t, x.out);
      } else {
        var y', t' := ScanTag(t[1..] + w, x.state), ScanTag(t[1..], x.state);
        CopiedTail(x.out, y', t, w);
        ScanBefore(t[1..], w, x.state);
        Prefixed(t, t');
        assert x.out == [t[0]];
      }
    }
  }

  lemma StopCopies(t: string, out: string)
    requires t != "" && (IsSpace(t[0]) || out == [t[0]]) && t[0] == '>'
    ensures out == [t[0]] && out + t[1..] == t
  {}

  lemma TailOf(t: string, w: string)
    requires t != "" && EndsInText(t)
    ensures (t + w)[0] == t[0] && (t + w)[1..] == t[1..] + w && EndsInText(t[1..])
  {}

  lemma Prefixed(t: string, x: TagScan)
    requires t != "" && x.out + x.rest == t[1..]
    ensures [t[0]] + x.out + x.rest == t
  {
    assert [t[0]] + x.out + x.rest == [t[0]] + (x.out + x.rest);
  }

  lemma CopiedTail(out: string, y: TagScan, t: string, w: string)
    requires t != "" && |out| <= 1 && |y.out| + |y.rest| <= |t| - 1 + |w|
    requires out + y.out + y.rest == t + w
    ensures out == [t[0]] && y.out + y.rest == t[1..] + w
  {
    assert out + (y.out + y.rest) == out + y.out + y.rest;
    assert |out| == 1;
    assert (out + (y.out + y.rest))[1..] == y.out + y.rest;
    assert (t + w)[1..] == t[1..] + w;
  }

  lemma {:induction false} NeverCloses(w: string, st: TagState)
    requires AllSpace(w)
    ensures !ScanTag(w, st).closed
  {
    if w != "" {
      StepFacts(w[0], st);
      ScanUnfolds(w, st);
      var x := Step(w[0], st);
      hide Step, ScanTag;
      if !x.stop {
        NeverCloses(w[1..], x.state);
      }
    }
  }

  lemma CommentShrinks(s: string, depth: nat, prev: char)
    requires s != "" && s[0] == '<' && CommentAt(s, depth)
    ensures |Minified(s, depth, prev)| < |s|
  {
    assert |Minified(AfterComment(s[4..]), depth, prev)| <= |s| - 4;
    hide At;
  }

  /** Trimming copied text leaves text that is copied too. */
  lemma {:induction false} TrimmedIsFixed(t: string, w: string, depth: nat, prev: char)
    requires AllSpace(w) && EndsInText(t) && Minified(t + w, depth, prev) == t + w
    ensures Minified(t, depth, prev) == t
    decreases |t|, 1
  {
    hide HeadOf, ScanTag, TrimLeft, DropsSpace, AfterComment, AllSpace;
    var y := t + w;
    if t == "" {
      assert Minified("", depth, prev) == "";
    } else {
      hide Minified;
      assert y[1..] == t[1..] + w;
      if t[0] == '<' {
        if CommentAt(y, depth) {
          CommentShrinks(y, depth, prev);
        } else if PlainAngle(y, depth) {
          HeadBefore(t[1..], w);
          CopiesAngle(y, depth, prev);
          assert ("<" + Minified(y[1..], depth, '<'))[1..] == Minified(y[1..], depth, '<');
          TrimmedIsFixed(t[1..], w, depth, '<');
          CopiesAngle(t, depth, prev);
        } else {
          TagTrimmed(t, w, depth, prev);
        }
      } else if depth == 0 && IsSpace(t[0]) {
        SpaceTrimmed(t, w, prev);
      } else {
        assert y == [t[0]] + (t[1..] + w) && t == [t[0]] + t[1..];
        CopiesChar(t[0], t[1..] + w, depth, prev);
        CopiesChar(t[0], t[1..], depth, prev);
        assert ([t[0]] + Minified(t[1..] + w, depth, t[0]))[1..] == Minified(t[1..] + w, depth, t[0]);
        TrimmedIsFixed(t[1..], w, depth, t[0]);
      }
    }
  }

  lemma {:induction false} SpaceTrimmed(t: string, w: string, prev: char)
    requires AllSpace(w) && EndsInText(t) && t != "" && IsSpace(t[0]) && Minified(t + w, 0, prev) == t + w
    ensures Minified(t, 0, prev) == t
    decreases |t|, 0
  {
    hide Minified, TrimLeft, IsSpace, DropsSpace;
    var y := t + w;
    KeptSpace(y, prev);
    assert |t| >= 2;
    assert y[1..] == t[1..] + w && y[1] == t[1] && y[0] == t[0];
    TrimStops(y);
    TrimOfTwo(t);
    SpaceCase(t, prev);
    TrimmedIsFixed(t[1..], w, 0, ' ');
    assert " " + t[1..] == t;
  }

  lemma TrimOfTwo(t: string)
    requires |t| >= 2 && IsSpace(t[0])
    ensures !IsSpace(t[1]) ==> TrimLeft(t) == t[1..]
  {}

  lemma TrimStops(s: string)
    ensures TrimLeft(s) == "" || !IsSpace(TrimLeft(s)[0])
  {}

  /** A space that is copied is followed by text. */
  lemma KeptSpace(y: string, prev: char)
    requires y != "" && IsSpace(y[0]) && Minified(y, 0, prev) == y
    ensures y[0] == ' ' && TrimLeft(y) == y[1..] && y[1..] != "" && !DropsSpace(prev, y[1])
    ensures Minified(y[1..], 0, ' ') == y[1..]
  {
    var rest := TrimLeft(y);
    SpaceCase(y, prev);
    assert |Minified(rest, 0, prev)| <= |rest| && |Minified(rest, 0, ' ')| <= |rest|;
    assert rest == y[|y| - |rest|..];
    hide Minified, TrimLeft;
    assert (" " + Minified(rest, 0, ' '))[1..] == Minified(rest, 0, ' ');
    assert |rest| == |y| - 1;
  }

  lemma SameTag(t: string, w: string, depth: nat)
    requires AllSpace(w) && EndsInText(t) && t != "" && t[0] == '<'
    requires !CommentAt(t + w, depth) && !PlainAngle(t + w, depth)
    ensures !CommentAt(t, depth) && !PlainAngle(t, depth) && HeadOf((t + w)[1..]) == HeadOf(t[1..])
  {
    assert (t + w)[1..] == t[1..] + w;
    NotCommentBefore(t, w, depth);
    hide At, HeadOf, IsSpace, CommentAt;
    HeadBefore(t[1..], w);
  }

  lemma {:induction false} TagTrimmed(t: string, w: string, depth: nat, prev: char)
    requires AllSpace(w) && EndsInText(t) && t != "" && t[0] == '<' && Minified(t + w, depth, prev) == t + w
    requires !CommentAt(t + w, depth) && !PlainAngle(t + w, depth)
    ensures Minified(t, depth, prev) == t
    decreases |t|, 0
  {
    var y := t + w;
    hide At, HeadOf, Minified, ScanTag, DepthAfter, IsSpace, CommentAt, PlainAngle, Last, EndsInText, AllSpace;
    SameTag(t, w, depth);
    TagCopied(y, depth, prev);
    TagCase(t, depth, prev);
    ScanBefore(t, w, TAG_START);
    RestIsSuffix(t, TAG_START);
    var scan, scan' := ScanTag(y, TAG_START), ScanTag(t, TAG_START);
    SuffixEndsInText(t, scan'.rest);
    if scan.closed {
      TrimmedIsFixed(scan'.rest, w, DepthAfter(depth, HeadOf(t[1..]), true), Last(prev, scan.out));
    } else {
      NothingLeft(scan'.rest, DepthAfter(depth, HeadOf(t[1..]), false), Last(prev, scan'.out));
    }
  }

  lemma SuffixEndsInText(t: string, rest: string)
    requires EndsInText(t) && |rest| <= |t| && rest == t[|t| - |rest|..]
    ensures EndsInText(rest)
  {}

  /** A tag that is copied: the scan copies it, and what follows is copied too. */
  lemma TagCopied(y: string, depth: nat, prev: char)
    requires y != "" && y[0] == '<' && !CommentAt(y, depth) && !PlainAngle(y, depth) && Minified(y, depth, prev) == y
    ensures var scan := ScanTag(y, TAG_START);
            && scan.out + scan.rest == y
            && Minified(scan.rest, DepthAfter(depth, HeadOf(y[1..]), scan.closed), Last(prev, scan.out)) == scan.rest
  {
    hide At, HeadOf, ScanTag, DepthAfter;
    TagCase(y, depth, prev);
    var scan := ScanTag(y, TAG_START);
    var r := Minified(scan.rest, DepthAfter(depth, HeadOf(y[1..]), scan.closed), Last(prev, scan.out));
    hide Minified;
    RestIsSuffix(y, TAG_START);
    CopiedRest(scan, r, y);
  }

  lemma NotCommentBefore(t: string, w: string, depth: nat)
    requires !CommentAt(t + w, depth)
    ensures !CommentAt(t, depth)
  {
    AtIsPrefix(t, "<!--");
    AtIsPrefix(t + w, "<!--");
    assert t <= t + w;
  }

  /** When a tag and the output of what follows it together are the text itself, both are copies. */
  lemma CopiedRest(scan: TagScan, r: string, y: string)
    requires |scan.out| + |scan.rest| <= |y| && |r| <= |scan.rest| && scan.out + r == y
    requires scan.rest == y[|y| - |scan.rest|..]
    ensures r == scan.rest && scan.out + scan.rest == y
  {
    assert |r| == |scan.rest|;
    assert (scan.out + r)[|scan.out|..] == r;
  }

  /** Minifying is idempotent. */
  lemma MinifyIsIdempotent(s: string)
    ensures Output(Output(s)) == Output(s)
  {
    hide Minified, TrimRight;
    var y := Minified(s, 0, NUL);
    MinifiedIsFixed(s, 0, NUL);
    var t := TrimRight(y);
    var w := y[|t|..];
    assert y == t + w;
    assert EndsInText(t) && AllSpace(w);
    TrimmedIsFixed(t, w, 0, NUL);
    TrimRightFixed(t);
  }

  lemma TrimRightFixed(t: string)
    requires EndsInText(t)
    ensures TrimRight(t) == t
  {}
}
