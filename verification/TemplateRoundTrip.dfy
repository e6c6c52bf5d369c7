/** Templates as text: a tree is written with its literal tags, and reading the text gives
    the tree back. What ends a token is said here in literals, apart from the lexer. */
module TemplateRoundTrip {
  import opened Text
  import opened Ast
  import opened Lexer
  import opened LexerTheorems
  import opened Parser
  import opened ParserTheorems
  import opened TemplateTexts

  // -------------------------------------------------------------------- writing

  function Write(t: Tree): string {
    match t.kind
    case HtmlNode => t.content
    case CodeNode => "<%" + t.content + "%>"
    case VarNode => "{" + t.content + "}"
    case LoopNode => t.content + WriteAll(t.children) + "</cloop>"
    case StyleNode => t.content + WriteAll(t.children) + "</cstyle>"
    case IfNode =>
      if t.children != [] && t.children[|t.children| - 1].kind == ElseNode then
        t.content + WriteAll(t.children[..|t.children| - 1]) + "<celse>"
        + WriteAll(t.children[|t.children| - 1].children) + "</cif>"
      else t.content + WriteAll(t.children) + "</cif>"
    case _ => WriteAll(t.children)
  }

  function WriteAll(cs: seq<Tree>): string {
    if cs == [] then "" else Write(cs[0]) + WriteAll(cs[1..])
  }

  /** The text of one token. */
  function PieceOf(t: Token): string {
    match t.kind
    case CCode => "<%" + t.value + "%>"
    case Variable => "{" + t.value + "}"
    case CElse => "<celse>"
    case CEndLoop => "</cloop>"
    case CEndIf => "</cif>"
    case CEndStyle => "</cstyle>"
    case _ => t.value
  }

  function WriteTokens(ts: seq<Token>): string {
    if ts == [] then "" else PieceOf(ts[0]) + WriteTokens(ts[1..])
  }

  lemma {:induction false} WriteConcat(a: seq<Token>, b: seq<Token>)
    ensures WriteTokens(a + b) == WriteTokens(a) + WriteTokens(b)
  {
    if a == [] {
      assert a + b == b;
    } else {
      assert (a + b)[0] == a[0] && (a + b)[1..] == a[1..] + b;
      WriteConcat(a[1..], b);
      WriteFirst(a);
      WriteFirst(a + b);
      hide WriteTokens, PieceOf;
    }
  }

  lemma WriteFirst(ts: seq<Token>)
    requires ts != []
    ensures WriteTokens(ts) == PieceOf(ts[0]) + WriteTokens(ts[1..])
  {
    hide PieceOf;
  }

  lemma WriteOne(t: Token)
    ensures WriteTokens([t]) == PieceOf(t)
  {
    assert [t][1..] == [] && WriteTokens([]) == "";
    assert PieceOf(t) + "" == PieceOf(t);
  }

  lemma WriteThree(x: Token, b: seq<Token>, y: Token)
    ensures WriteTokens([x] + b + [y]) == PieceOf(x) + WriteTokens(b) + PieceOf(y)
  {
    hide WriteTokens, PieceOf;
    WriteConcat([x] + b, [y]);
    WriteConcat([x], b);
    WriteOne(x);
    WriteOne(y);
  }

  lemma {:induction false} WriteIsTokens(t: Tree)
    ensures Write(t) == WriteTokens(Flatten(t))
    decreases t, 1
  {
    hide WriteTokens, WriteAll, FlattenAll;
    match t.kind
    case HtmlNode => WriteOne(Tok(HtmlText, t.content));
    case CodeNode => WriteOne(Tok(CCode, t.content));
    case VarNode => WriteOne(Tok(Variable, t.content));
    case LoopNode =>
      WriteAllIsTokens(t.children);
      WriteThree(Tok(CLoop, t.content), FlattenAll(t.children), Tok(CEndLoop, ""));
    case StyleNode =>
      WriteAllIsTokens(t.children);
      WriteThree(Tok(CStyle, t.content), FlattenAll(t.children), Tok(CEndStyle, ""));
    case IfNode => IfIsTokens(t);
    case _ => WriteAllIsTokens(t.children);
  }

  lemma {:induction false} IfIsTokens(t: Tree)
    requires t.kind == IfNode
    ensures Write(t) == WriteTokens(Flatten(t))
    decreases t, 0
  {
    hide WriteTokens, WriteAll, FlattenAll;
    var open, close := Tok(CIf, t.content), Tok(CEndIf, "");
    if t.children != [] && t.children[|t.children| - 1].kind == ElseNode {
      var thn, els := t.children[..|t.children| - 1], t.children[|t.children| - 1].children;
      WriteAllIsTokens(thn);
      WriteAllIsTokens(els);
      var head := [open] + FlattenAll(thn);
      var tail := [Tok(CElse, "")] + FlattenAll(els) + [close];
      assert Flatten(t) == head + tail;
      hide Flatten;
      WriteConcat(head, tail);
      WriteConcat([open], FlattenAll(thn));
      WriteOne(open);
      WriteThree(Tok(CElse, ""), FlattenAll(els), close);
    } else {
      WriteAllIsTokens(t.children);
      WriteThree(open, FlattenAll(t.children), close);
    }
  }

  lemma {:induction false} WriteAllIsTokens(cs: seq<Tree>)
    ensures WriteAll(cs) == WriteTokens(FlattenAll(cs))
    decreases cs, 1
  {
    if cs != [] {
      WriteIsTokens(cs[0]);
      WriteAllIsTokens(cs[1..]);
      hide Write, Flatten, WriteTokens;
      WriteConcat(Flatten(cs[0]), FlattenAll(cs[1..]));
    }
  }

  // ------------------------------------------------------- texts without own breaks

  /** Where a piece of text stands: in a style sheet, in a script. */
  datatype Where = Where(style: bool, script: bool)

  /** Behind the first n characters of a text that begins in a region or not. */
  predicate In(r: Region, s: string, n: nat, before: bool) {
    if n == 0 then before
    else
      match r
      case StyleRegion =>
        if At(s, n - 1, "<style") || At(s, n - 1, "<cstyle") then true
        else if At(s, n - 1, "</style>") || At(s, n - 1, "</cstyle>") then false
        else In(r, s, n - 1, before)
      case ScriptRegion =>
        if At(s, n - 1, "<script") then true
        else if At(s, n - 1, "</script>") then false
        else In(r, s, n - 1, before)
  }

  function After(s: string, n: nat, w: Where): Where {
    Where(In(StyleRegion, s, n, w.style), In(ScriptRegion, s, n, w.script))
  }

  /** A letter, a digit or an arrow: what makes a brace the start of a variable. */
  predicate Hint(v: string, k: nat) {
    k < |v| && ('a' <= v[k] <= 'z' || 'A' <= v[k] <= 'Z' || '0' <= v[k] <= '9'
                || (k + 1 < |v| && v[k] == '-' && v[k + 1] == '>'))
  }

  /** No hint follows the brace at k before its closing brace, or within 100 characters. */
  predicate IdleUntil(v: string, k: nat, e: nat) {
    && k < e < |v| && (v[e] == '}' || e == k + 100)
    && forall j :: k < j < e ==> !Hint(v, j)
  }

  ghost predicate Idle(v: string, k: nat) {
    exists e: nat :: IdleUntil(v, k, e)
  }

  /** A template tag or a code block starts at position k. */
  predicate TagStarts(v: string, k: nat) {
    || At(v, k, "<%") || At(v, k, "<cloop") || At(v, k, "</cloop>") || At(v, k, "<cif") || At(v, k, "<celse>")
    || At(v, k, "</cif>") || At(v, k, "<cstyle") || At(v, k, "</cstyle>")
  }

  /** Position k of a text that begins at w would end the text. */
  ghost predicate OwnBreak(v: string, k: nat, w: Where)
    requires k < |v|
  {
    TagStarts(v, k) || (v[k] == '{' && After(v, k, w) == Where(false, false) && !Idle(v, k))
  }

  /** An opening tag: its only closing bracket, arrows apart, is its last character. */
  predicate OpeningTag(v: string, word: string) {
    && word <= v && 2 <= |word| < |v| <= 8191 && v[|v| - 1] == '>' && v[|v| - 2] != '-'
    && forall k :: 0 < k < |v| - 1 ==> v[k] == '>' ==> v[k - 1] == '-'
  }

  ghost predicate FineToken(t: Token, w: Where) {
    match t.kind
    case HtmlText => 1 <= |t.value| <= 8191 && forall k :: 0 <= k < |t.value| ==> !OwnBreak(t.value, k, w)
    case CCode => |t.value| < 8191 && !Forbidden(t.value) && forall k: nat :: !At(t.value, k, "%>")
    case Variable =>
      && w == Where(false, false) && |t.value| <= 8191 && '}' !in t.value && Trim(t.value) == t.value
      && exists k: nat :: k < 99 && Hint(t.value, k)
    case CLoop => OpeningTag(t.value, "<cloop")
    case CIf => OpeningTag(t.value, "<cif")
    case CStyle => OpeningTag(t.value, "<cstyle")
    case Eof => false
    case Error => false
    case _ => true
  }

  /** Tokens that can stand one behind the other in a template that begins at w: no two
      texts in a row, and none of them with a break of its own. */
  ghost predicate Fine(ts: seq<Token>, w: Where, afterText: bool) {
    ts != [] ==>
      && FineToken(ts[0], w) && !(afterText && ts[0].kind == HtmlText)
      && Fine(ts[1..], After(PieceOf(ts[0]), |PieceOf(ts[0])|, w), ts[0].kind == HtmlText)
  }

  // ------------------------------------------------------------------------ seams

  /** No word of a tag lies across position q. */
  predicate Seam(s: string, q: nat)
    requires q <= |s|
  {
    q == |s| || s[q] == '<' || s[q] == '{' || (q > 0 && (s[q - 1] == '>' || s[q - 1] == '}'))
  }

  /** An angle bracket opens a word or closes it, and no brace is in it. */
  predicate IsWord(w: string) {
    && 2 <= |w| && (forall k :: 0 <= k < |w| ==> w[k] != '{' && w[k] != '}')
    && (forall k :: 0 < k < |w| ==> w[k] != '<') && (forall k :: 0 <= k < |w| - 1 ==> w[k] != '>')
  }

  lemma TagWords()
    ensures IsWord("<%") && IsWord("<cloop") && IsWord("</cloop>") && IsWord("<cif")
  {}

  lemma MoreTagWords()
    ensures IsWord("<celse>") && IsWord("</cif>") && IsWord("<cstyle") && IsWord("</cstyle>")
  {}

  lemma RegionWords()
    ensures IsWord("<style") && IsWord("</style>") && IsWord("<script") && IsWord("</script>")
  {}

  lemma AtPiece(s: string, p: nat, q: nat, j: nat, w: string)
    requires p <= q <= |s| && Seam(s, q) && IsWord(w) && p + j < q
    ensures At(s, p + j, w) == At(s[p..q], j, w)
  {
    if p + j + |w| <= q {
      SliceOf(s, p, q, j, j + |w|);
    } else {
      NoWordAcross(s, p + j, q, w);
    }
  }

  lemma NoWordAcross(s: string, b: nat, q: nat, w: string)
    requires b < q <= |s| && q < b + |w| && Seam(s, q) && IsWord(w)
    ensures !At(s, b, w)
  {
    hide At;
    if At(s, b, w) {
      WordAcross(s, b, w, q - b);
    }
  }

  lemma WordAcross(s: string, b: nat, w: string, m: nat)
    requires At(s, b, w) && 0 < m < |w|
    ensures b + m < |s| && s[b + m] == w[m] && s[b + m - 1] == w[m - 1]
  {
    AtChar(s, b, w, m);
    AtChar(s, b, w, m - 1);
  }

  /** One more position of a region: what In says of it, and what the lexer does. */
  predicate Stepped(r: Region, now: bool, s: string, k: nat, before: bool) {
    match r
    case StyleRegion =>
      now == (if At(s, k, "<style") || At(s, k, "<cstyle") then true
              else if At(s, k, "</style>") || At(s, k, "</cstyle>") then false
              else before)
    case ScriptRegion =>
      now == (if At(s, k, "<script") then true else if At(s, k, "</script>") then false else before)
  }

  lemma InStep(r: Region, s: string, n: nat, before: bool)
    requires n > 0
    ensures Stepped(r, In(r, s, n, before), s, n - 1, In(r, s, n - 1, before))
  {
    hide At;
  }

  lemma FlagStep(r: Region, s: string, n: nat)
    requires n > 0
    ensures Stepped(r, InsideFlag(r, s, n), s, n - 1, InsideFlag(r, s, n - 1))
  {
    hide At;
  }

  lemma SteppedAlike(r: Region, now: bool, s: string, p: nat, q: nat, k: nat, before: bool)
    requires p <= q <= |s| && Seam(s, q) && p + k < q && Stepped(r, now, s, p + k, before)
    ensures Stepped(r, now, s[p..q], k, before)
  {
    RegionWords();
    MoreTagWords();
    hide IsWord, At, Seam;
    match r {
      case StyleRegion =>
        AtPiece(s, p, q, k, "<style");
        AtPiece(s, p, q, k, "<cstyle");
        AtPiece(s, p, q, k, "</style>");
        AtPiece(s, p, q, k, "</cstyle>");
      case ScriptRegion =>
        AtPiece(s, p, q, k, "<script");
        AtPiece(s, p, q, k, "</script>");
    }
  }

  lemma SteppedOnce(r: Region, a: bool, b: bool, s: string, k: nat, before: bool)
    requires Stepped(r, a, s, k, before) && Stepped(r, b, s, k, before)
    ensures a == b
  {
    hide At;
  }

  lemma InNext(r: Region, s: string, p: nat, q: nat, k: nat, before: bool)
    requires p <= q <= |s| && Seam(s, q) && 0 < k <= q - p
    requires InsideFlag(r, s, p + k - 1) == In(r, s[p..q], k - 1, before)
    ensures InsideFlag(r, s, p + k) == In(r, s[p..q], k, before)
  {
    hide Seam, In, InsideFlag, Stepped;
    var v := s[p..q];
    InStep(r, v, k, before);
    FlagStep(r, s, p + k);
    SteppedAlike(r, InsideFlag(r, s, p + k), s, p, q, k - 1, InsideFlag(r, s, p + k - 1));
    SteppedOnce(r, InsideFlag(r, s, p + k), In(r, v, k, before), v, k - 1, In(r, v, k - 1, before));
  }

  lemma InFirst(r: Region, s: string, before: bool)
    ensures In(r, s, 0, before) == before
  {}

  /** The regions of the lexer, piece by piece. */
  lemma {:induction false} InPiece(r: Region, s: string, p: nat, q: nat, k: nat)
    requires p <= q <= |s| && Seam(s, q) && k <= q - p
    ensures InsideFlag(r, s, p + k) == In(r, s[p..q], k, InsideFlag(r, s, p))
  {
    hide Seam, In, InsideFlag;
    if k == 0 {
      InFirst(r, s[p..q], InsideFlag(r, s, p));
    } else {
      InPiece(r, s, p, q, k - 1);
      InNext(r, s, p, q, k, InsideFlag(r, s, p));
    }
  }

  function WhereAt(s: string, p: nat): Where {
    Where(InsideFlag(StyleRegion, s, p), InsideFlag(ScriptRegion, s, p))
  }

  lemma AfterPiece(s: string, p: nat, q: nat, k: nat)
    requires p <= q <= |s| && Seam(s, q) && k <= q - p
    ensures WhereAt(s, p + k) == After(s[p..q], k, WhereAt(s, p))
    ensures WhereAt(s, p + k) == Where(false, false)
            <==> !Inside(StyleRegion, s, p + k) && !Inside(ScriptRegion, s, p + k)
  {
    hide InsideFlag, Inside, In, Seam;
    InPiece(StyleRegion, s, p, q, k);
    InPiece(ScriptRegion, s, p, q, k);
    RescanIsOnePass(StyleRegion, s, p + k);
    RescanIsOnePass(ScriptRegion, s, p + k);
  }

  // ----------------------------------------------------------------------- lexing

  /** The text the lexer keeps of a token: of a closing tag, the tag. */
  function TextRead(t: Token): string {
    if t.kind in CLOSERS then PieceOf(t) else t.value
  }

  /** Reading the piece of a token at position p gives the token and stops behind it. */
  ghost predicate Reads(s: string, p: nat, q: nat, t: Token) {
    p < q <= |s| && LexemeAt(s, p, CAP) == Lexeme(t.kind, TextRead(t), q)
  }

  lemma TagBreaks(s: string, p: nat, q: nat, k: nat)
    requires p <= q <= |s| && Seam(s, q) && p + k < q
    ensures TagStarts(s[p..q], k) == (CodeAt(s, p + k) || ControlAt(s, p + k))
  {
    TagWords();
    MoreTagWords();
    hide IsWord, At, Seam;
    AtPiece(s, p, q, k, "<%");
    AtPiece(s, p, q, k, "<cloop");
    AtPiece(s, p, q, k, "</cloop>");
    AtPiece(s, p, q, k, "<cif");
    AtPiece(s, p, q, k, "<celse>");
    AtPiece(s, p, q, k, "</cif>");
    AtPiece(s, p, q, k, "<cstyle");
    AtPiece(s, p, q, k, "</cstyle>");
  }

  lemma HintAt(s: string, p: nat, q: nat, j: nat)
    requires p <= q <= |s| && p + j + 1 < q
    ensures Hint(s[p..q], j) == (IsAlnum(s[p + j]) || At(s, p + j, "->"))
  {
    assert s[p + j..p + j + 2] == [s[p + j], s[p + j + 1]];
  }

  lemma IdleIsNoVariable(s: string, p: nat, q: nat, k: nat)
    requires p <= q <= |s| && p + k < q && Idle(s[p..q], k)
    ensures !LooksLikeVariable(s, p + k)
  {
    var v, b := s[p..q], p + k;
    var e: nat :| IdleUntil(v, k, e);
    forall j: nat | 1 <= j && Scanned(s, b, j)
      ensures !VariableHint(s, b, j)
    {
      assert v[e] == s[b + (e - k)];
      ScanStops(s, b, e - k);
      assert j < e - k;
      HintAt(s, p, q, k + j);
      assert !Hint(v, k + j);
    }
  }

  /** A fine text has no break inside. */
  lemma NoBreakInside(s: string, p: nat, q: nat, k: nat)
    requires p <= q <= |s| && Seam(s, q) && p + k < q && !OwnBreak(s[p..q], k, WhereAt(s, p))
    ensures !BreakAt(s, p + k)
  {
    TagBreaks(s, p, q, k);
    AfterPiece(s, p, q, k);
    hide CodeAt, ControlAt, TagStarts, After, WhereAt, Inside, Idle, LooksLikeVariable, Seam;
    if Idle(s[p..q], k) {
      IdleIsNoVariable(s, p, q, k);
    }
  }

  lemma {:induction false} HtmlEndIs(s: string, p: nat, q: nat, cap: nat)
    requires p <= q <= |s| && q - p <= cap && (q == |s| || BreakAt(s, q))
    requires forall k :: p <= k < q ==> !BreakAt(s, k)
    ensures HtmlEnd(s, p, cap) == q
    decreases q - p
  {
    hide BreakAt;
    if p < q {
      HtmlEndIs(s, p + 1, q, cap - 1);
    }
  }

  lemma ReadsText(s: string, p: nat, q: nat, t: Token)
    requires p < q <= |s| && s[p..q] == PieceOf(t) && t.kind == HtmlText && FineToken(t, WhereAt(s, p))
    requires Seam(s, q) && (q == |s| || BreakAt(s, q))
    ensures Reads(s, p, q, t)
  {
    forall k | p <= k < q
      ensures !BreakAt(s, k)
    {
      assert !OwnBreak(t.value, k - p, WhereAt(s, p));
      NoBreakInside(s, p, q, k - p);
    }
    HtmlEndIs(s, p, q, CAP);
    assert !BreakAt(s, p);
    hide CodeAt, ControlAt, VariableAt, HtmlEnd;
  }

  lemma {:induction false} CodeEndIs(s: string, p: nat, q: nat, cap: nat)
    requires p <= q <= |s| && q - p <= cap && At(s, q, "%>")
    requires forall k :: p <= k < q ==> !At(s, k, "%>")
    ensures CodeBodyEnd(s, p, cap) == q
    decreases q - p
  {
    hide At;
    if p < q {
      CodeEndIs(s, p + 1, q, cap - 1);
    }
  }

  lemma ReadsCode(s: string, p: nat, q: nat, t: Token)
    requires p < q <= |s| && s[p..q] == PieceOf(t) && t.kind == CCode && FineToken(t, WhereAt(s, p))
    ensures Reads(s, p, q, t) && CodeAt(s, p)
  {
    hide SafeCode, WhereAt, Forbidden;
    var v, e := t.value, q - 2;
    SafeIff(v);
    CodePiece(s, p, q, v);
    forall k | p + 2 <= k < e
      ensures !At(s, k, "%>")
    {
      NoEndInside(s, p + 2, e, k - p - 2);
    }
    CodeEndIs(s, p + 2, e, CAP);
    hide At, CodeBodyEnd;
  }

  lemma CodePiece(s: string, p: nat, q: nat, v: string)
    requires p < q <= |s| && s[p..q] == "<%" + v + "%>"
    ensures q == p + |v| + 4 && At(s, p, "<%") && s[p + 2..q - 2] == v && At(s, q - 2, "%>")
  {
    var piece := s[p..q];
    assert piece[0..2] == "<%" && piece[2..|v| + 2] == v && piece[|v| + 2..|v| + 4] == "%>";
    SliceOf(s, p, q, 0, 2);
    SliceOf(s, p, q, 2, |v| + 2);
    SliceOf(s, p, q, |v| + 2, |v| + 4);
  }

  /** The two characters of the end mark come from the text, or the mark is at its end. */
  lemma NoEndInside(s: string, p: nat, e: nat, k: nat)
    requires p + k < e && e + 2 <= |s| && At(s, e, "%>") && !At(s[p..e], k, "%>")
    ensures !At(s, p + k, "%>")
  {
    if At(s, p + k, "%>") {
      if p + k + 1 == e {
        AtChar(s, p + k, "%>", 1);
        AtChar(s, e, "%>", 0);
      } else {
        SliceOf(s, p, e, k, k + 2);
      }
    }
  }

  lemma {:induction false} VariableEndIs(s: string, p: nat, q: nat, cap: nat)
    requires p <= q < |s| && q - p <= cap && s[q] == '}' && '}' !in s[p..q]
    ensures VariableBodyEnd(s, p, cap) == q
    decreases q - p
  {
    if p < q {
      assert s[p] in s[p..q] && s[p..q][1..] == s[p + 1..q];
      VariableEndIs(s, p + 1, q, cap - 1);
    }
  }

  lemma ReadsVariable(s: string, p: nat, q: nat, t: Token)
    requires p < q <= |s| && Seam(s, q) && s[p..q] == PieceOf(t) && t.kind == Variable && FineToken(t, WhereAt(s, p))
    ensures Reads(s, p, q, t) && VariableAt(s, p)
  {
    hide CodeAt, ControlAt, Inside, LooksLikeVariable, WhereAt, After, Trim, VariableBodyEnd, Seam, Hint;
    var v := t.value;
    VariablePiece(s, p, q, v);
    StartsWithAngle(s, p);
    NotInRegion(s, p);
    VariableLooksLike(s, p, q, v);
    VariableEndIs(s, p + 1, q - 1, CAP);
  }

  lemma NotInRegion(s: string, p: nat)
    requires p <= |s| && WhereAt(s, p) == Where(false, false)
    ensures !Inside(StyleRegion, s, p) && !Inside(ScriptRegion, s, p)
  {
    RescanIsOnePass(StyleRegion, s, p);
    RescanIsOnePass(ScriptRegion, s, p);
    hide Inside, InsideFlag;
  }

  lemma VariablePiece(s: string, p: nat, q: nat, v: string)
    requires p < q <= |s| && s[p..q] == "{" + v + "}"
    ensures q == p + |v| + 2 && s[p] == '{' && s[p + 1..q - 1] == v && s[q - 1] == '}'
  {
    var piece := s[p..q];
    assert piece[0] == '{' && piece[1..|v| + 1] == v && piece[|v| + 1] == '}';
    SliceOf(s, p, q, 1, |v| + 1);
  }

  lemma VariableLooksLike(s: string, p: nat, q: nat, v: string)
    requires p < q <= |s| && q == p + |v| + 2 && s[p + 1..q - 1] == v && '}' !in v
    requires exists k: nat :: k < 99 && Hint(v, k)
    ensures LooksLikeVariable(s, p)
  {
    var k: nat :| k < 99 && Hint(v, k);
    assert s[p + 1..p + k + 2] == v[..k + 1];
    assert Scanned(s, p, k + 1);
    assert s[p + k + 1] == v[k];
    if k + 1 < |v| && v[k] == '-' && v[k + 1] == '>' {
      assert s[p + k + 1..p + k + 3] == [v[k], v[k + 1]];
    }
    assert VariableHint(s, p, k + 1);
  }

  // ------------------------------------------------------------------------- tags

  lemma {:induction false} TagEndIs(s: string, p: nat, q: nat, cap: nat)
    requires p <= q < |s| && q - p <= cap && ClosesTag(s, q) && forall k :: p <= k < q ==> !ClosesTag(s, k)
    ensures TagBodyEnd(s, p, cap) == q
    decreases q - p
  {
    hide ClosesTag;
    if p < q {
      TagEndIs(s, p + 1, q, cap - 1);
    }
  }

  /** The word with which the tag of a token starts, in literals. */
  function WordOf(k: TokenKind): string {
    match k
    case CLoop => "<cloop"
    case CIf => "<cif"
    case CElse => "<celse>"
    case CStyle => "<cstyle"
    case CEndLoop => "</cloop>"
    case CEndIf => "</cif>"
    case CEndStyle => "</cstyle>"
    case _ => ""
  }

  predicate IsTag(k: TokenKind) {
    k.CLoop? || k.CIf? || k.CElse? || k.CStyle? || k.CEndLoop? || k.CEndIf? || k.CEndStyle?
  }

  /** The piece of a tag starts with its word, and ends with its only closing bracket. */
  predicate TagPiece(v: string, word: string) {
    && word <= v && 2 <= |v| <= 8191 && v[0] == '<' && v[|v| - 1] == '>' && v[|v| - 2] != '-'
    && forall k :: 0 < k < |v| - 1 ==> v[k] == '>' ==> v[k - 1] == '-'
  }

  lemma TagPieces(t: Token, w: Where)
    requires IsTag(t.kind) && FineToken(t, w)
    ensures TagPiece(PieceOf(t), WordOf(t.kind))
  {}

  lemma KindOfTag(v: string, k: TokenKind)
    requires IsTag(k) && WordOf(k) <= v
    ensures ControlKind(v) == k
  {
    var word := WordOf(k);
    assert v[0..|word|] == word;
    forall other | other in ["<cloop", "<cif", "<celse>", "</cloop>", "</cif>", "<cstyle", "</cstyle>"] && other != word
      ensures !At(v, 0, other)
    {
      OtherWord(v, word, other);
    }
    hide At;
  }

  lemma OtherWord(v: string, word: string, other: string)
    requires word in ["<cloop", "<cif", "<celse>", "</cloop>", "</cif>", "<cstyle", "</cstyle>"] && word <= v
    requires other in ["<cloop", "<cif", "<celse>", "</cloop>", "</cif>", "<cstyle", "</cstyle>"] && other != word
    ensures !At(v, 0, other)
  {
    WordsDiffer(word, other);
    var k: nat :| k < |word| && k < |other| && word[k] != other[k];
    assert v[k] == word[k];
  }

  lemma WordsDiffer(word: string, other: string)
    requires word in ["<cloop", "<cif", "<celse>", "</cloop>", "</cif>", "<cstyle", "</cstyle>"]
    requires other in ["<cloop", "<cif", "<celse>", "</cloop>", "</cif>", "<cstyle", "</cstyle>"] && other != word
    ensures exists k: nat :: k < |word| && k < |other| && word[k] != other[k]
  {
    assert word[1] != other[1] || word[2] != other[2] || word[3] != other[3];
  }

  lemma ReadsTag(s: string, p: nat, q: nat, t: Token)
    requires p < q <= |s| && s[p..q] == PieceOf(t) && IsTag(t.kind) && FineToken(t, WhereAt(s, p))
    ensures Reads(s, p, q, t) && ControlAt(s, p)
  {
    hide WhereAt, CodeAt, ControlAt, TagBodyEnd, ControlKind, FineToken, ClosesTag;
    var v, word := PieceOf(t), WordOf(t.kind);
    TagPieces(t, WhereAt(s, p));
    KindOfTag(v, t.kind);
    TagIsControl(s, p, q, t.kind);
    StartsWithAngle(s, p);
    OneEnd(s, p, q, word);
    TagEndIs(s, p, q - 1, CAP);
    hide TagPiece, WordOf;
  }

  lemma OneEnd(s: string, p: nat, q: nat, word: string)
    requires p < q <= |s| && TagPiece(s[p..q], word)
    ensures ClosesTag(s, q - 1) && forall k :: p <= k < q - 1 ==> !ClosesTag(s, k)
  {
    var v := s[p..q];
    forall k | p <= k < q - 1
      ensures !ClosesTag(s, k)
    {
      assert s[k] == v[k - p];
      assert k > p ==> s[k - 1] == v[k - p - 1];
    }
    assert s[q - 1] == v[|v| - 1] && s[q - 2] == v[|v| - 2];
  }

  lemma TagIsControl(s: string, p: nat, q: nat, k: TokenKind)
    requires p < q <= |s| && IsTag(k) && WordOf(k) <= s[p..q]
    ensures ControlAt(s, p)
  {
    var word := WordOf(k);
    assert s[p..p + |word|] == s[p..q][..|word|] == word;
    assert At(s, p, word);
    hide At;
  }

  // --------------------------------------------------------------------- streams

  lemma ReadsPiece(s: string, p: nat, q: nat, t: Token)
    requires p <= q <= |s| && s[p..q] == PieceOf(t) && FineToken(t, WhereAt(s, p)) && Seam(s, q)
    requires t.kind == HtmlText ==> q == |s| || BreakAt(s, q)
    ensures Reads(s, p, q, t)
    ensures t.kind != HtmlText ==> BreakAt(s, p)
  {
    hide Reads, PieceOf, WhereAt, Seam, CodeAt, ControlAt, VariableAt, FineToken;
    PieceEnds(t, WhereAt(s, p));
    if t.kind == HtmlText {
      ReadsText(s, p, q, t);
    } else if t.kind == CCode {
      ReadsCode(s, p, q, t);
    } else if t.kind == Variable {
      ReadsVariable(s, p, q, t);
    } else {
      ReadsTag(s, p, q, t);
    }
  }

  /** What a piece starts and ends with. */
  lemma PieceEnds(t: Token, w: Where)
    requires FineToken(t, w)
    ensures var v := PieceOf(t);
            && v != "" && (t.kind != HtmlText ==> v[0] == '<' || v[0] == '{')
            && (t.kind != HtmlText ==> v[|v| - 1] == '>' || v[|v| - 1] == '}')
    ensures t.kind == HtmlText || t.kind == CCode || t.kind == Variable || IsTag(t.kind)
  {
    hide Forbidden, Trim, OwnBreak, Hint;
  }

  /** What stands behind a piece keeps the words of the two apart. */
  lemma SeamBetween(s: string, q: nat, ts: seq<Token>, w: Where, afterText: bool)
    requires q <= |s| && s[q..] == WriteTokens(ts) && Fine(ts, w, afterText)
    requires afterText || (q > 0 && (s[q - 1] == '>' || s[q - 1] == '}'))
    ensures Seam(s, q)
  {
    hide WriteTokens, PieceOf, FineToken, After;
    if ts == [] {
      assert WriteTokens([]) == "" by { NothingWritten(); }
    } else {
      PieceEnds(ts[0], w);
      WriteFirst(ts);
      assert q < |s| && s[q] == s[q..][0] == PieceOf(ts[0])[0];
    }
  }

  lemma NothingWritten()
    ensures WriteTokens([]) == ""
  {}

  /** The same tokens, but for positions; closing tags are read with their text. */
  ghost predicate Alike(xs: seq<Token>, ys: seq<Token>) {
    |xs| == |ys| && forall i :: 0 <= i < |xs| ==> xs[i].kind == ys[i].kind && xs[i].value == TextRead(ys[i])
  }

  lemma AlikeCons(x: Token, xs: seq<Token>, ys: seq<Token>)
    requires ys != [] && x.kind == ys[0].kind && x.value == TextRead(ys[0])
    requires Alike(xs, ys[1..])
    ensures Alike([x] + xs, ys)
  {
    hide TextRead;
    forall i | 0 <= i < |ys|
      ensures var a := ([x] + xs)[i]; a.kind == ys[i].kind && a.value == TextRead(ys[i])
    {
      assert i > 0 ==> ys[i] == ys[1..][i - 1];
    }
  }

  lemma FirstPiece(s: string, p: nat, ts: seq<Token>)
    requires p <= |s| && s[p..] == WriteTokens(ts) && ts != []
    ensures var q := p + |PieceOf(ts[0])|; q <= |s| && s[p..q] == PieceOf(ts[0]) && s[q..] == WriteTokens(ts[1..])
  {
    hide WriteTokens, PieceOf;
    WriteFirst(ts);
    var v, n := PieceOf(ts[0]), |PieceOf(ts[0])|;
    assert s[p..][..n] == v && s[p..][n..] == WriteTokens(ts[1..]);
    SliceOf(s, p, |s|, 0, n);
    SliceOf(s, p, |s|, n, |s| - p);
  }

  /** The lexer reads back every stream that is written as text. */
  lemma {:induction false} LexerUndoesWriting(s: string, p: nat, ts: seq<Token>, afterText: bool)
    requires p <= |s| && s[p..] == WriteTokens(ts) && Fine(ts, WhereAt(s, p), afterText)
    ensures Alike(Tokens(s, p, CAP), ts)
    ensures ts != [] && ts[0].kind != HtmlText ==> BreakAt(s, p)
    decreases |ts|
  {
    hide WriteTokens, PieceOf, WhereAt, FineToken, Fine, After, BreakAt, LexemeAt, TokenAt, Tokens, Alike, Seam;
    if ts == [] {
      NothingWritten();
      NothingRead(s);
    } else {
      var t, q := ts[0], p + |PieceOf(ts[0])|;
      var text := t.kind == HtmlText;
      FirstPiece(s, p, ts);
      FineStep(ts, WhereAt(s, p), afterText);
      PieceEnds(t, WhereAt(s, p));
      assert q > p && s[q - 1] == s[p..q][q - p - 1];
      SeamBetween(s, q, ts[1..], After(PieceOf(t), |PieceOf(t)|, WhereAt(s, p)), text);
      AfterPiece(s, p, q, q - p);
      LexerUndoesWriting(s, q, ts[1..], text);
      BehindText(s, q, ts[1..], WhereAt(s, q), text);
      ReadsPiece(s, p, q, t);
      TokensFrom(s, p, q, t);
      AlikeCons(TokenAt(s, p, CAP), Tokens(s, q, CAP), ts);
    }
  }

  lemma NothingRead(s: string)
    ensures Alike(Tokens(s, |s|, CAP), [])
  {}

  lemma FineStep(ts: seq<Token>, w: Where, afterText: bool)
    requires ts != [] && Fine(ts, w, afterText)
    ensures FineToken(ts[0], w)
    ensures Fine(ts[1..], After(PieceOf(ts[0]), |PieceOf(ts[0])|, w), ts[0].kind == HtmlText)
  {
    hide FineToken, After, PieceOf;
  }

  lemma TokensFrom(s: string, p: nat, q: nat, t: Token)
    requires p <= q && Reads(s, p, q, t)
    ensures Tokens(s, p, CAP) == [TokenAt(s, p, CAP)] + Tokens(s, q, CAP)
    ensures TokenAt(s, p, CAP).kind == t.kind && TokenAt(s, p, CAP).value == TextRead(t)
  {
    hide LexemeAt, TextRead;
  }

  /** Behind a text comes the end, or a token that is no text. */
  lemma BehindText(s: string, q: nat, ts: seq<Token>, w: Where, afterText: bool)
    requires q <= |s| && s[q..] == WriteTokens(ts) && Fine(ts, w, afterText)
    ensures ts == [] ==> q == |s|
    ensures ts != [] && afterText ==> ts[0].kind != HtmlText
  {
    NothingWritten();
    hide WriteTokens, FineToken;
  }

  lemma {:induction false} FineTexts(ts: seq<Token>, w: Where, afterText: bool, i: nat)
    requires Fine(ts, w, afterText) && i < |ts|
    ensures |TextRead(ts[i])| <= 8191
    decreases i
  {
    hide Fine, TextRead, FineToken, PieceOf, After;
    FineStep(ts, w, afterText);
    if i == 0 {
      FineText(ts[0], w);
    } else {
      FineTexts(ts[1..], After(PieceOf(ts[0]), |PieceOf(ts[0])|, w), ts[0].kind == HtmlText, i - 1);
    }
  }

  lemma FineText(t: Token, w: Where)
    requires FineToken(t, w)
    ensures |TextRead(t)| <= 8191
  {
    hide Forbidden, Trim, OwnBreak, Hint;
  }

  /** The tokens of a written template stay inside the buffer of the lexer. */
  lemma WrittenTokensFit(s: string, ts: seq<Token>, w: Where)
    requires Alike(Tokens(s, 0, CAP), ts) && Fine(ts, w, false)
    ensures TokensFit(s, 0)
  {
    hide Tokens, Fine, TextRead;
    forall i | 0 <= i < |Tokens(s, 0, CAP)|
      ensures |Tokens(s, 0, CAP)[i].value| + 1 <= MAX_BUFFER_SIZE
    {
      FineTexts(ts, w, false, i);
    }
  }

  // --------------------------------------------------------------------- parsing

  lemma AlikeRest(xs: seq<Token>, ys: seq<Token>)
    requires Alike(xs, ys) && xs != []
    ensures Alike(xs[1..], ys[1..])
  {}

  lemma {:induction false} UntilAlike(xs: seq<Token>, ys: seq<Token>, stops: set<TokenKind>)
    requires Alike(xs, ys)
    ensures var (es, rest) := ParseUntil(xs, stops);
            var (fs, rest') := ParseUntil(ys, stops); es == fs && Alike(rest, rest')
    decreases |xs|, 2
  {
    hide ParseUntil, ParseElement;
    UntilUnfolds(xs, stops);
    UntilUnfolds(ys, stops);
    if xs != [] && xs[0].kind !in stops {
      ElementAlike(xs, ys);
      hide Alike;
      UntilAlike(ParseElement(xs).1, ParseElement(ys).1, stops);
    }
  }

  lemma {:induction false} ElementAlike(xs: seq<Token>, ys: seq<Token>)
    requires Alike(xs, ys) && xs != []
    ensures var (e, rest) := ParseElement(xs);
            var (f, rest') := ParseElement(ys); e == f && Alike(rest, rest')
    decreases |xs|, 1
  {
    hide ParseUntil, ParseCif;
    AlikeRest(xs, ys);
    match xs[0].kind
    case CLoop =>
      UntilAlike(xs[1..], ys[1..], {CEndLoop});
      SkipAlike(ParseUntil(xs[1..], {CEndLoop}).1, ParseUntil(ys[1..], {CEndLoop}).1, CEndLoop);
      hide SkipIf;
    case CStyle =>
      UntilAlike(xs[1..], ys[1..], {CEndStyle});
      SkipAlike(ParseUntil(xs[1..], {CEndStyle}).1, ParseUntil(ys[1..], {CEndStyle}).1, CEndStyle);
      hide SkipIf;
    case CIf => CifAlike(xs, ys);
    case _ =>
  }

  lemma SkipAlike(xs: seq<Token>, ys: seq<Token>, k: TokenKind)
    requires Alike(xs, ys)
    ensures Alike(SkipIf(xs, k), SkipIf(ys, k))
  {
    if xs != [] {
      AlikeRest(xs, ys);
    }
  }

  lemma {:induction false} CifAlike(xs: seq<Token>, ys: seq<Token>)
    requires Alike(xs, ys) && xs != [] && xs[0].kind == CIf
    ensures ParseCif(xs).0 == ParseCif(ys).0 && Alike(ParseCif(xs).1, ParseCif(ys).1)
    decreases |xs|, 0
  {
    hide ParseUntil, ParseCif;
    CifUnfolds(xs);
    CifUnfolds(ys);
    AlikeRest(xs, ys);
    UntilAlike(xs[1..], ys[1..], {CElse, CEndIf});
    var rest, rest' := ParseUntil(xs[1..], {CElse, CEndIf}).1, ParseUntil(ys[1..], {CElse, CEndIf}).1;
    assert xs[0].value == ys[0].value;
    assert rest != [] ==> rest[0].kind == rest'[0].kind;
    if rest != [] && rest[0].kind == CElse {
      AlikeRest(rest, rest');
      UntilAlike(rest[1..], rest'[1..], {CEndIf});
      SkipAlike(ParseUntil(rest[1..], {CEndIf}).1, ParseUntil(rest'[1..], {CEndIf}).1, CEndIf);
    } else {
      SkipAlike(rest, rest', CEndIf);
    }
    hide Alike, SkipIf;
  }

  // ------------------------------------------------------------------ the theorem

  /** Every tree of a template can be written as a template: what the lexer and the parser
      make of its literal tags, texts, code blocks and variables is the tree. */
  lemma ReadingUndoesWriting(t: Tree)
    requires t.kind == RootNode && t.content == "" && Shaped(t)
    requires Fine(Flatten(t), Where(false, false), false)
    ensures TreeOf(Write(t)) == t && TokensFit(Write(t), 0)
  {
    var s, ts := Write(t), Flatten(t);
    WriteIsTokens(t);
    assert s[0..] == s;
    LexerUndoesWriting(s, 0, ts, false);
    UntilAlike(Tokens(s, 0, CAP), ts, {});
    ParseUndoesFlatten(t);
    WrittenTokensFit(s, ts, Where(false, false));
    hide TokensFit, Write, Flatten, WriteTokens, Tokens, ParseUntil, Alike, Fine;
  }

  /** A loop and the text behind it. */
  lemma LoopExample()
    ensures TreeOf("<cloop count=\"2\">x</cloop>y")
            == Tree(RootNode, "", [Tree(LoopNode, "<cloop count=\"2\">", [Tree(HtmlNode, "x", [])]),
                                   Tree(HtmlNode, "y", [])])
  {
    var tag := "<cloop count=\"2\">";
    var x, y := Tree(HtmlNode, "x", []), Tree(HtmlNode, "y", []);
    var loop := Tree(LoopNode, tag, [x]);
    var root := Tree(RootNode, "", [loop, y]);
    hide Write, Flatten, Fine, Shaped, TreeOf;
    ExampleTokens(tag, x, y);
    ExampleIsFine(tag);
    ExampleText(tag, x, y);
    ReadingUndoesWriting(root);
    assert tag + "x" + "</cloop>" + "y" == "<cloop count=\"2\">x</cloop>y";
  }

  lemma ExampleTokens(tag: string, x: Tree, y: Tree)
    requires x == Tree(HtmlNode, "x", []) && y == Tree(HtmlNode, "y", [])
    ensures var root := Tree(RootNode, "", [Tree(LoopNode, tag, [x]), y]);
            && Flatten(root) == [Tok(CLoop, tag), Tok(HtmlText, "x"), Tok(CEndLoop, ""), Tok(HtmlText, "y")]
            && Shaped(root)
  {
    var loop := Tree(LoopNode, tag, [x]);
    assert [loop, y][1..] == [y] && [y][1..] == [] && [x][1..] == [];
    assert FlattenAll([]) == [] && ShapedBody([]);
    assert FlattenAll([x]) == [Tok(HtmlText, "x")] && FlattenAll([y]) == [Tok(HtmlText, "y")];
    assert ShapedBody([x]) && ShapedBody([y]);
    assert Flatten(loop) == [Tok(CLoop, tag), Tok(HtmlText, "x"), Tok(CEndLoop, "")];
    assert FlattenAll([loop, y]) == Flatten(loop) + FlattenAll([y]);
  }

  lemma ExampleText(tag: string, x: Tree, y: Tree)
    requires x == Tree(HtmlNode, "x", []) && y == Tree(HtmlNode, "y", [])
    ensures Write(Tree(RootNode, "", [Tree(LoopNode, tag, [x]), y])) == tag + "x" + "</cloop>" + "y"
  {
    var loop := Tree(LoopNode, tag, [x]);
    assert [loop, y][1..] == [y] && [y][1..] == [] && [x][1..] == [] && WriteAll([]) == "";
    assert WriteAll([x]) == "x" && WriteAll([y]) == "y";
    assert Write(loop) == tag + "x" + "</cloop>";
  }

  lemma FineCons(t: Token, ts: seq<Token>, w: Where, afterText: bool)
    requires FineToken(t, w) && !(afterText && t.kind == HtmlText)
    requires Fine(ts, After(PieceOf(t), |PieceOf(t)|, w), t.kind == HtmlText)
    ensures Fine([t] + ts, w, afterText)
  {
    assert ([t] + ts)[1..] == ts;
    hide FineToken, After, PieceOf;
  }

  lemma LetterIsFine(c: char, w: Where)
    requires 'a' <= c <= 'z'
    ensures FineToken(Tok(HtmlText, [c]), w)
  {
    NoTagOfLetter(c);
    hide TagStarts;
    assert forall k :: 0 <= k < 1 ==> !OwnBreak([c], k, w);
  }

  lemma NoTagOfLetter(c: char)
    requires c != '<'
    ensures !TagStarts([c], 0)
  {
    hide TagStarts;
    if TagStarts([c], 0) {
      StartOfTag([c]);
    }
  }

  lemma StartOfTag(v: string)
    requires TagStarts(v, 0)
    ensures v[0] == '<'
  {}

  lemma ExampleTags(tag: string, start: Where, inside: Where)
    requires tag == "<cloop count=\"2\">"
    ensures FineToken(Tok(CLoop, tag), start) && FineToken(Tok(CEndLoop, ""), inside)
    ensures PieceOf(Tok(CLoop, tag)) == tag && PieceOf(Tok(CEndLoop, "")) == "</cloop>" && |"</cloop>"| == 8
    ensures PieceOf(Tok(HtmlText, "x")) == "x" && PieceOf(Tok(HtmlText, "y")) == "y"
  {}

  lemma ExampleIsFine(tag: string)
    requires tag == "<cloop count=\"2\">"
    ensures Fine([Tok(CLoop, tag), Tok(HtmlText, "x"), Tok(CEndLoop, ""), Tok(HtmlText, "y")],
                 Where(false, false), false)
  {
    var start := Where(false, false);
    var inLoop := After(tag, |tag|, start);
    var behindX := After("x", 1, inLoop);
    var behind := After("</cloop>", 8, behindX);
    hide After, FineToken, PieceOf;
    LetterIsFine('x', inLoop);
    LetterIsFine('y', behind);
    ExampleTags(tag, start, behindX);
    FineCons(Tok(HtmlText, "y"), [], behind, false);
    FineCons(Tok(CEndLoop, ""), [Tok(HtmlText, "y")], behindX, true);
    FineCons(Tok(HtmlText, "x"), [Tok(CEndLoop, ""), Tok(HtmlText, "y")], inLoop, false);
    FineCons(Tok(CLoop, tag), [Tok(HtmlText, "x"), Tok(CEndLoop, ""), Tok(HtmlText, "y")], start, false);
    assert [Tok(HtmlText, "y")] + [] == [Tok(HtmlText, "y")];
  }
}
