/** What the lexer guarantees over a whole input. */
module LexerTheorems {
  import opened Text
  import opened Lexer

  // ------------------------------------------------------------------- progress

  /** The lexer reports EOF at the end of the input and nowhere else. */
  lemma EofOnlyAtEnd(s: string, p: nat)
    requires p <= |s|
    ensures TokenAt(s, p, CAP).kind == Eof <==> p == |s|
    ensures p < |s| ==> p < LexemeAt(s, p, CAP).next <= |s|
  {
    if p < |s| && ControlAt(s, p) {
      StartsWithAngle(s, p);
    }
  }

  lemma TagHoldsWord(s: string, p: nat, w: string)
    requires ControlAt(s, p) && w == ControlWord(s, p)
    ensures p + |w| <= ControlLexeme(s, p, CAP).next
  {
    var q := TagBodyEnd(s, p, CAP);
    TagBodyStops(s, p, CAP);
    WordHasNoEnd(s, p, w);
    assert q >= p + |w| - 1;
    hide TagBodyEnd, ControlAt, At, ControlWord, ControlKind;
  }

  /** The literal of a control tag holds no closing bracket before its last character. */
  lemma WordHasNoEnd(s: string, p: nat, w: string)
    requires ControlAt(s, p) && w == ControlWord(s, p)
    ensures At(s, p, w) && p + |w| <= |s| && |w| < CAP
    ensures forall k :: p <= k < p + |w| - 1 ==> !ClosesTag(s, k)
    ensures s[p + |w| - 1] == '>' || !ClosesTag(s, p + |w| - 1)
  {
    hide ControlAt;
    assert forall k :: p <= k < p + |w| ==> s[k] == s[p..p + |w|][k - p] == w[k - p];
  }

  lemma ControlIsNoError(s: string, p: nat)
    requires ControlAt(s, p)
    ensures ControlLexeme(s, p, CAP).kind != Error
  {
    var w := ControlWord(s, p);
    var x := ControlLexeme(s, p, CAP);
    TagHoldsWord(s, p, w);
    WordHasNoEnd(s, p, w);
    hide TagBodyEnd, ControlAt, ControlKind, ControlWord, At;
    WordInFront(s, p, x.next, w);
    assert x.value == s[p..x.next] && x.kind == ControlKind(x.value);
    WordListed(s, p);
    WordKind(x.value, w);
  }

  lemma WordInFront(s: string, p: nat, q: nat, w: string)
    requires At(s, p, w) && p + |w| <= q <= |s|
    ensures At(s[p..q], 0, w)
  {
    assert s[p..q][0..|w|] == s[p..p + |w|];
  }

  lemma WordListed(s: string, p: nat)
    requires ControlAt(s, p)
    ensures ControlWord(s, p) in ["<cloop", "<cif", "<celse>", "</cloop>", "</cif>", "<cstyle", "</cstyle>"]
  {
    hide At;
  }

  lemma WordKind(tag: string, w: string)
    requires At(tag, 0, w) && w in ["<cloop", "<cif", "<celse>", "</cloop>", "</cif>", "<cstyle", "</cstyle>"]
    ensures ControlKind(tag) != Error
  {
    hide At;
  }

  /** One of the ten words that the sanitizer forbids stands at position k. */
  predicate ForbiddenAt(code: string, k: nat) {
    || At(code, k, "system(") || At(code, k, "exec(") || At(code, k, "popen(") || At(code, k, "fork(")
    || At(code, k, "unlink(") || At(code, k, "remove(") || At(code, k, "rmdir(")
    || At(code, k, "#include") || At(code, k, "#define") || At(code, k, "#pragma")
  }

  ghost predicate Forbidden(code: string) {
    exists k: nat :: ForbiddenAt(code, k)
  }

  /** Code is safe exactly when none of the words stands anywhere in it. */
  lemma SafeIff(code: string)
    ensures SafeCode(code) <==> !Forbidden(code)
  {
    hide Contains, At, ForbiddenAt, FORBIDDEN_IN_C;
    WordsOfC();
    if !SafeCode(code) {
      var i :| 0 <= i < |FORBIDDEN_IN_C| && Contains(code, FORBIDDEN_IN_C[i]);
      ContainsIff(code, FORBIDDEN_IN_C[i]);
      var k: nat :| At(code, k, FORBIDDEN_IN_C[i]);
      assert ForbiddenAt(code, k);
    }
    if Forbidden(code) {
      var k: nat :| ForbiddenAt(code, k);
      var i :| 0 <= i < |FORBIDDEN_IN_C| && At(code, k, FORBIDDEN_IN_C[i]);
      ContainsIff(code, FORBIDDEN_IN_C[i]);
    }
  }

  lemma WordsOfC()
    ensures forall code: string, k: nat ::
              ForbiddenAt(code, k) <==> exists i :: 0 <= i < |FORBIDDEN_IN_C| && At(code, k, FORBIDDEN_IN_C[i])
  {
    hide At;
    forall code: string, k: nat
      ensures ForbiddenAt(code, k) <==> exists i :: 0 <= i < |FORBIDDEN_IN_C| && At(code, k, FORBIDDEN_IN_C[i])
    {
      var f := FORBIDDEN_IN_C;
      assert f[0] == "system(" && f[1] == "exec(" && f[2] == "popen(" && f[3] == "fork(" && f[4] == "unlink(";
      assert f[5] == "remove(" && f[6] == "rmdir(" && f[7] == "#include" && f[8] == "#define" && f[9] == "#pragma";
      assert |f| == 10;
    }
  }

  /** A control tag always gets its own token kind: an error is C code with a forbidden word. */
  lemma ErrorIsUnsafeCode(s: string, p: nat)
    requires p < |s|
    ensures TokenAt(s, p, CAP).kind == Error
            <==> CodeAt(s, p) && Forbidden(s[p + 2..CodeBodyEnd(s, p + 2, CAP)])
  {
    StartsWithAngle(s, p);
    if CodeAt(s, p) {
      SafeIff(s[p + 2..CodeBodyEnd(s, p + 2, CAP)]);
    }
    hide Forbidden;
    if ControlAt(s, p) {
      ControlIsNoError(s, p);
    }
    hide CodeAt, ControlAt, VariableAt, ControlLexeme, SafeCode, CodeBodyEnd, VariableBodyEnd, HtmlEnd, Trim;
  }

  lemma {:induction false} TagBodyStops(s: string, p: nat, cap: nat)
    requires p <= |s|
    ensures var q := TagBodyEnd(s, p, cap); q == |s| || q == p + cap || ClosesTag(s, q)
    decreases cap
  {
    if p < |s| && cap != 0 && !ClosesTag(s, p) {
      TagBodyStops(s, p + 1, cap - 1);
    }
  }

  // --------------------------------------------------------------------- tiling

  /** The pieces of input the tokens were read from. */
  ghost function Spans(s: string, p: nat, cap: nat): seq<string>
    requires p <= |s| && 0 < cap
    decreases |s| - p
  {
    if p == |s| then []
    else var q := LexemeAt(s, p, cap).next; [s[p..q]] + Spans(s, q, cap)
  }

  /** How a token of the given kind is read from the text it covers. */
  ghost predicate ReadFrom(t: Token, span: string) {
    match t.kind
    case HtmlText => t.value == span && span != ""
    case CCode => "<%" <= span && (span == "<%" + t.value || span == "<%" + t.value + "%>")
    case Error => "<%" <= span
    case Variable =>
      && span != "" && span[0] == '{'
      && (t.value == Trim(span[1..])
          || (2 <= |span| && span[|span| - 1] == '}' && t.value == Trim(span[1..|span| - 1])))
    case Eof => false
    case _ => t.value == span && t.kind == ControlKind(span)
  }

  /** Every token is read from its own span. */
  ghost predicate AllReadFrom(ts: seq<Token>, spans: seq<string>) {
    |ts| == |spans| && forall i :: 0 <= i < |ts| ==> ReadFrom(ts[i], spans[i])
  }

  lemma CodeReadFrom(s: string, p: nat)
    requires CodeAt(s, p)
    ensures var x := CodeLexeme(s, p, CAP); ReadFrom(Token(x.kind, x.value, 1, 1), s[p..x.next])
  {
    hide SafeCode;
    var x := CodeLexeme(s, p, CAP);
    var q := CodeBodyEnd(s, p + 2, CAP);
    assert s[p..p + 2] == "<%";
    assert s[p..x.next] == "<%" + s[p + 2..x.next];
    if x.next == q + 2 {
      PercentAt(s, q);
      assert s[p..q + 2] == "<%" + s[p + 2..q] + "%>";
    }
  }

  lemma VariableReadFrom(s: string, p: nat)
    requires p < |s| && s[p] == '{'
    ensures var x := VariableLexeme(s, p, CAP); ReadFrom(Token(x.kind, x.value, 1, 1), s[p..x.next])
  {
    hide Trim, VariableBodyEnd;
    var x := VariableLexeme(s, p, CAP);
    var q := VariableBodyEnd(s, p + 1, CAP);
    InsideBrace(s, p, q);
  }

  lemma InsideBrace(s: string, p: nat, q: nat)
    requires p < q <= |s|
    ensures s[p..q][1..] == s[p + 1..q] && s[p..q][0] == s[p]
    ensures q < |s| ==> s[p..q + 1][1..q - p] == s[p + 1..q] && s[p..q + 1][q - p] == s[q]
  {
    var inner := s[p + 1..q];
    assert s[p..q][1..] == inner;
    if q < |s| {
      var t := s[p..q + 1][1..q - p];
      assert |t| == |inner| && forall k :: 0 <= k < |t| ==> t[k] == inner[k];
    }
  }

  lemma ControlReadFrom(s: string, p: nat)
    requires ControlAt(s, p)
    ensures var x := ControlLexeme(s, p, CAP); ReadFrom(Token(x.kind, x.value, 1, 1), s[p..x.next])
  {
    ErrorIsUnsafeCode(s, p);
    StartsWithAngle(s, p);
    assert TokenAt(s, p, CAP).kind == ControlLexeme(s, p, CAP).kind;
    hide ControlAt, CodeAt;
  }

  lemma TokenReadFrom(s: string, p: nat)
    requires p < |s|
    ensures ReadFrom(TokenAt(s, p, CAP), s[p..LexemeAt(s, p, CAP).next])
  {
    StartsWithAngle(s, p);
    if CodeAt(s, p) {
      CodeReadFrom(s, p);
    } else if ControlAt(s, p) {
      ControlReadFrom(s, p);
    } else if VariableAt(s, p) {
      VariableReadFrom(s, p);
    }
    hide CodeAt, ControlAt, VariableAt, CodeLexeme, VariableLexeme, ControlLexeme, SafeCode;
  }

  /** The tokens tile the input: nothing is skipped and nothing is read twice, and
      each token is read from its own piece. */
  lemma {:induction false} TokensTileInput(s: string, p: nat)
    requires p <= |s|
    ensures Concat(Spans(s, p, CAP)) == s[p..]
    ensures AllReadFrom(Tokens(s, p, CAP), Spans(s, p, CAP))
    decreases |s| - p
  {
    hide ReadFrom, AllReadFrom, LexemeAt, TokenAt, Tokens, Spans, Concat;
    if p < |s| {
      var q := LexemeAt(s, p, CAP).next;
      TokenReadFrom(s, p);
      OneStep(s, p);
      TokensTileInput(s, q);
      InFront(s[p..q], Spans(s, q, CAP), TokenAt(s, p, CAP), Tokens(s, q, CAP));
      Rejoined(s, p, q);
    } else {
      NothingLeft(s);
    }
  }

  lemma Rejoined(s: string, p: nat, q: nat)
    requires p <= q <= |s|
    ensures s[p..q] + s[q..] == s[p..]
  {}

  lemma NothingLeft(s: string)
    ensures Concat(Spans(s, |s|, CAP)) == s[|s|..] && AllReadFrom(Tokens(s, |s|, CAP), Spans(s, |s|, CAP))
  {
    hide ReadFrom;
  }

  lemma OneStep(s: string, p: nat)
    requires p < |s|
    ensures var q := LexemeAt(s, p, CAP).next;
            && Tokens(s, p, CAP) == [TokenAt(s, p, CAP)] + Tokens(s, q, CAP)
            && Spans(s, p, CAP) == [s[p..q]] + Spans(s, q, CAP)
  {
    hide TokenAt, LexemeAt;
  }

  /** One more token and its span. */
  lemma InFront(span: string, spans: seq<string>, t: Token, ts: seq<Token>)
    requires ReadFrom(t, span) && AllReadFrom(ts, spans)
    ensures Concat([span] + spans) == span + Concat(spans)
    ensures AllReadFrom([t] + ts, [span] + spans)
  {
    hide ReadFrom;
    assert ([span] + spans)[1..] == spans;
  }

  // ------------------------------------------------------- lines and the rescans

  /** `line` counts the newlines before p and `column` measures back to the last one. */
  lemma {:induction false} LineAndColumn(s: string, p: nat)
    requires p <= |s|
    ensures LineAt(s, p) == 1 + multiset(s[..p])['\n']
    ensures 1 <= ColumnAt(s, p) <= p + 1
    ensures '\n' !in s[p + 1 - ColumnAt(s, p)..p]
    ensures ColumnAt(s, p) == p + 1 || s[p - ColumnAt(s, p)] == '\n'
  {
    if p > 0 {
      LineAndColumn(s, p - 1);
      assert s[..p] == s[..p - 1] + [s[p - 1]];
      if s[p - 1] != '\n' {
        var start := p - ColumnAt(s, p - 1);
        assert s[start..p] == s[start..p - 1] + [s[p - 1]];
      }
    }
  }

  /** Rescanning the whole prefix gives the flag that one pass would keep. */
  lemma {:induction false} RescanIsOnePass(r: Region, s: string, q: nat)
    ensures Inside(r, s, q) <==> InsideFlag(r, s, q)
  {
    hide OpensAt, ClosesAt;
    if q > 0 {
      RescanIsOnePass(r, s, q - 1);
      hide Inside;
      InsideStays(r, s, q);
      InsideCame(r, s, q);
    }
  }

  lemma InsideStays(r: Region, s: string, q: nat)
    requires q > 0
    ensures OpensAt(r, s, q - 1) ==> Inside(r, s, q)
    ensures Inside(r, s, q - 1) && !ClosesAt(r, s, q - 1) ==> Inside(r, s, q)
  {
    hide OpensAt, ClosesAt;
    if Inside(r, s, q - 1) && !ClosesAt(r, s, q - 1) {
      var p :| 0 <= p < q - 1 && OpensAt(r, s, p) && forall c :: p < c < q - 1 ==> !ClosesAt(r, s, c);
      assert OpensAt(r, s, p) && forall c :: p < c < q ==> !ClosesAt(r, s, c);
    }
  }

  lemma InsideCame(r: Region, s: string, q: nat)
    requires q > 0
    ensures Inside(r, s, q) ==> OpensAt(r, s, q - 1) || (Inside(r, s, q - 1) && !ClosesAt(r, s, q - 1))
  {
    hide OpensAt, ClosesAt;
    if Inside(r, s, q) {
      var p :| 0 <= p < q && OpensAt(r, s, p) && forall c :: p < c < q ==> !ClosesAt(r, s, c);
      assert OpensAt(r, s, p) && forall c :: p < c < q - 1 ==> !ClosesAt(r, s, c);
    }
  }

  // ---------------------------------------------------------------- the tag buffer

  /** A control tag whose first CAP characters hold no closing bracket, with a bracket
      behind them. */
  ghost predicate TagOverruns(s: string, p: nat) {
    && ControlAt(s, p)
    && p + CAP < |s| && s[p + CAP] == '>' && forall k :: p <= k < p + CAP ==> !ClosesTag(s, k)
  }

  lemma {:induction false} TagBodyEndIs(s: string, p: nat, cap: nat)
    requires p <= |s|
    ensures var q := TagBodyEnd(s, p, cap);
            q == p + cap <==> p + cap <= |s| && forall k :: p <= k < p + cap ==> !ClosesTag(s, k)
    decreases cap
  {
    if p < |s| && cap != 0 && !ClosesTag(s, p) {
      TagBodyEndIs(s, p + 1, cap - 1);
    }
  }

  /** Every token fits the buffer with its NUL, except exactly for such a tag: there the
      bracket takes the last byte, and the NUL is written behind the buffer. */
  lemma TokenFitsIff(s: string, p: nat)
    requires p <= |s|
    ensures |TokenAt(s, p, CAP).value| + 1 <= 8192 <==> !TagOverruns(s, p)
  {
    StartsWithAngle(s, p);
    hide CodeAt, ControlAt, VariableAt, SafeCode, ControlKind, TrimLeft, TrimRight;
    hide CodeBodyEnd, TagBodyEnd, VariableBodyEnd, HtmlEnd;
    if p < |s| {
      if ControlAt(s, p) {
        TagBodyEndIs(s, p, CAP);
      } else if !CodeAt(s, p) && !VariableAt(s, p) {
        HtmlEndBound(s, p, CAP);
      }
    }
  }

  lemma {:induction false} HtmlEndBound(s: string, p: nat, cap: nat)
    requires p <= |s|
    ensures HtmlEnd(s, p, cap) <= p + cap
    decreases cap
  {
    if p < |s| && cap != 0 && !BreakAt(s, p) {
      hide BreakAt;
      HtmlEndBound(s, p + 1, cap - 1);
    }
  }

  /** Such a tag, of 8192 characters. */
  lemma TagOverrunExample()
    ensures TagOverruns("<cif" + seq(CAP - 4, _ => 'x') + ">", 0)
  {
    var s := "<cif" + seq(CAP - 4, _ => 'x') + ">";
    assert s[0..4] == "<cif";
    assert At(s, 0, "<cif");
    forall k | 0 <= k < CAP
      ensures !ClosesTag(s, k)
    {
      if k < 4 {
        assert s[k] == "<cif"[k];
      } else {
        assert s[k] == 'x';
      }
    }
  }

  // --------------------------------------------------------- chunk independence

  /** Glue neighbouring text tokens together; the first one gives the position. */
  function Merge(ts: seq<Token>): seq<Token> {
    if ts == [] then []
    else
      var rest := Merge(ts[1..]);
      if ts[0].kind == HtmlText && rest != [] && rest[0].kind == HtmlText
      then [ts[0].(value := ts[0].value + rest[0].value)] + rest[1..]
      else [ts[0]] + rest
  }

  function Unlimited(s: string): nat {
    |s| + 1
  }

  /** The tag, variable or C block at p is short enough for a buffer of cap characters. */
  ghost predicate LexemeFits(s: string, p: nat, cap: nat)
    requires p < |s|
  {
    && (CodeAt(s, p) ==> CodeBodyEnd(s, p + 2, Unlimited(s)) < p + 2 + cap)
    && (ControlAt(s, p) ==> TagBodyEnd(s, p, Unlimited(s)) < p + cap)
    && (VariableAt(s, p) ==> VariableBodyEnd(s, p + 1, Unlimited(s)) <= p + 1 + cap)
  }

  /** Every tag, variable and C block of the template from p on fits. */
  ghost predicate AllFit(s: string, p: nat, cap: nat)
    requires p <= |s|
    decreases |s| - p
  {
    p == |s| || (LexemeFits(s, p, cap) && AllFit(s, LexemeAt(s, p, Unlimited(s)).next, cap))
  }

  lemma {:induction false} CodeCap(s: string, p: nat, cap: nat, big: nat)
    requires p <= |s| && CodeBodyEnd(s, p, big) <= p + cap && |s| - p < big
    ensures CodeBodyEnd(s, p, cap) == CodeBodyEnd(s, p, big)
    decreases big
  {
    if p < |s| && cap > 0 && !At(s, p, "%>") {
      CodeCap(s, p + 1, cap - 1, big - 1);
    }
  }

  lemma {:induction false} TagCap(s: string, p: nat, cap: nat, big: nat)
    requires p <= |s| && TagBodyEnd(s, p, big) <= p + cap && |s| - p < big
    ensures TagBodyEnd(s, p, cap) == TagBodyEnd(s, p, big)
    decreases big
  {
    if p < |s| && cap > 0 && !ClosesTag(s, p) {
      TagCap(s, p + 1, cap - 1, big - 1);
    }
  }

  lemma {:induction false} VariableCap(s: string, p: nat, cap: nat, big: nat)
    requires p <= |s| && VariableBodyEnd(s, p, big) <= p + cap && |s| - p < big
    ensures VariableBodyEnd(s, p, cap) == VariableBodyEnd(s, p, big)
    decreases big
  {
    if p < |s| && cap > 0 && s[p] != '}' {
      VariableCap(s, p + 1, cap - 1, big - 1);
    }
  }

  lemma FittingLexeme(s: string, p: nat, cap: nat)
    requires p < |s| && 0 < cap && LexemeFits(s, p, cap) && BreakAt(s, p)
    ensures LexemeAt(s, p, cap) == LexemeAt(s, p, Unlimited(s))
  {
    StartsWithAngle(s, p);
    hide CodeAt, ControlAt, VariableAt, SafeCode, ControlKind, CodeBodyEnd, TagBodyEnd, VariableBodyEnd, HtmlEnd, Trim;
    if CodeAt(s, p) {
      CodeCap(s, p + 2, cap, Unlimited(s));
    } else if ControlAt(s, p) {
      TagCap(s, p, cap, Unlimited(s));
    } else {
      VariableCap(s, p + 1, cap, Unlimited(s));
    }
  }

  /** A text chunk that the buffer cut short is continued by the next text chunk. */
  lemma {:induction false} HtmlSplits(s: string, p: nat, cap: nat, big: nat)
    requires p <= |s| && |s| - p < big && cap <= big
    ensures var q := HtmlEnd(s, p, cap);
            HtmlEnd(s, p, big) == HtmlEnd(s, q, Unlimited(s))
            && (q < |s| && !BreakAt(s, q) ==> q == p + cap)
    decreases big
  {
    if p == |s| || BreakAt(s, p) {
    } else if cap == 0 {
      HtmlEnough(s, p, big, Unlimited(s));
    } else {
      HtmlSplits(s, p + 1, cap - 1, big - 1);
    }
  }

  lemma {:induction false} HtmlEnough(s: string, p: nat, a: nat, b: nat)
    requires p <= |s| && |s| - p < a && |s| - p < b
    ensures HtmlEnd(s, p, a) == HtmlEnd(s, p, b)
    decreases a
  {
    if p < |s| && !BreakAt(s, p) {
      HtmlEnough(s, p + 1, a - 1, b - 1);
    }
  }

  /** The bounded buffer does not change the meaning of the token stream: when every
      tag, variable and C block fits, gluing the text chunks gives exactly the tokens
      of a lexer without a buffer limit. */
  lemma {:induction false} ChunkIndependence(s: string, p: nat, cap: nat)
    requires p <= |s| && 0 < cap && AllFit(s, p, cap)
    ensures Merge(Tokens(s, p, cap)) == Tokens(s, p, Unlimited(s))
    decreases |s| - p, 1
  {
    if p < |s| {
      var big := Unlimited(s);
      var ts := Tokens(s, p, cap);
      assert ts[1..] == Tokens(s, LexemeAt(s, p, cap).next, cap);
      if BreakAt(s, p) {
        FittingLexeme(s, p, cap);
        BreakIsNotHtml(s, p, cap);
        hide BreakAt, LexemeFits, LexemeAt;
        ChunkIndependence(s, LexemeAt(s, p, cap).next, cap);
      } else {
        hide BreakAt, LexemeFits, LexemeAt, Merge, Tokens;
        if cap <= big {
          HtmlSplits(s, p, cap, big);
        } else {
          HtmlEnough(s, p, cap, big);
          HtmlSplits(s, p, big, big);
        }
        ChunkAt(s, p, HtmlEnd(s, p, cap), cap);
      }
    }
  }

  lemma FittingTagEnds(s: string, p: nat)
    requires p < |s| && LexemeFits(s, p, CAP)
    ensures !TagOverruns(s, p)
  {
    if TagOverruns(s, p) {
      TagCap(s, p, CAP, Unlimited(s));
      TagBodyEndIs(s, p, CAP);
    }
    hide CodeAt, ControlAt, VariableAt, ClosesTag;
  }

  lemma NextFits(s: string, p: nat)
    requires p < |s| && AllFit(s, p, CAP)
    ensures LexemeFits(s, p, CAP) && AllFit(s, LexemeAt(s, p, CAP).next, CAP)
  {
    var big := Unlimited(s);
    if BreakAt(s, p) {
      FittingLexeme(s, p, CAP);
    } else {
      var q := HtmlEnd(s, p, CAP);
      if CAP <= big {
        HtmlSplits(s, p, CAP, big);
      } else {
        HtmlEnough(s, p, CAP, big);
        HtmlSplits(s, p, big, big);
      }
      hide CodeAt, ControlAt, VariableAt;
      if q < |s| && !BreakAt(s, q) {
        assert LexemeFits(s, q, CAP) && LexemeAt(s, q, big).next == HtmlEnd(s, q, big);
      }
    }
  }

  /** Every token that is read from position p on fits the buffer with its NUL. */
  ghost predicate TokensFit(s: string, p: nat)
    requires p <= |s|
  {
    forall i :: 0 <= i < |Tokens(s, p, CAP)| ==> |Tokens(s, p, CAP)[i].value| + 1 <= MAX_BUFFER_SIZE
  }

  /** Templates that fit never reach the end of the buffer. */
  lemma {:induction false} FittingTokensStayInside(s: string, p: nat)
    requires p <= |s| && AllFit(s, p, CAP)
    ensures TokensFit(s, p)
    decreases |s| - p
  {
    if p < |s| {
      NextFits(s, p);
      FittingTagEnds(s, p);
      TokenFitsIff(s, p);
      var next := LexemeAt(s, p, CAP).next;
      hide AllFit, LexemeAt, TokenAt, LexemeFits, TagOverruns;
      FittingTokensStayInside(s, next);
      assert Tokens(s, p, CAP) == [TokenAt(s, p, CAP)] + Tokens(s, next, CAP);
    }
  }

  /** The text case of ChunkIndependence: one chunk s[p..q] in front of the rest. */
  lemma {:induction false} ChunkAt(s: string, p: nat, q: nat, cap: nat)
    requires p < |s| && 0 < cap && AllFit(s, p, cap) && !BreakAt(s, p) && q == HtmlEnd(s, p, cap)
    requires HtmlEnd(s, p, Unlimited(s)) == HtmlEnd(s, q, Unlimited(s))
    ensures Merge(Tokens(s, p, cap)) == Tokens(s, p, Unlimited(s))
    decreases |s| - p, 0
  {
    var big := Unlimited(s);
    var e := HtmlEnd(s, q, big);
    assert p < q;
    hide CodeAt, ControlAt, VariableAt;
    if q < |s| && !BreakAt(s, q) {
      assert LexemeFits(s, q, cap) && LexemeAt(s, q, big).next == e;
      assert AllFit(s, q, cap);
      assert s[p..e] == s[p..q] + s[q..e];
    } else {
      assert q == e;
      if q < |s| {
        BreakIsNotHtml(s, q, big);
      }
    }
    ChunkIndependence(s, q, cap);
  }

  lemma BreakIsNotHtml(s: string, p: nat, cap: nat)
    requires p < |s| && 0 < cap && BreakAt(s, p)
    ensures TokenAt(s, p, cap).kind != HtmlText
  {}
}
