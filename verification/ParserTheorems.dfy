/** What the parser guarantees for every token stream, however badly nested. */
module ParserTheorems {
  import opened Text
  import opened Lexer
  import opened Ast
  import opened Parser

  // --------------------------------------------------------------------- fringe

  function Fringe(t: Tree): seq<Tree> {
    if IsLeaf(t.kind) then [t] else FringeAll(t.children)
  }

  function FringeAll(cs: seq<Tree>): seq<Tree> {
    if cs == [] then [] else Fringe(cs[0]) + FringeAll(cs[1..])
  }

  /** The text, C-code and variable tokens of a stream, as the leaves they become. */
  function LeafTokens(ts: seq<Token>): seq<Tree> {
    if ts == [] then []
    else
      var rest := LeafTokens(ts[1..]);
      match ts[0].kind
      case HtmlText => [Tree(HtmlNode, ts[0].value, [])] + rest
      case CCode => [Tree(CodeNode, ts[0].value, [])] + rest
      case Variable => [Tree(VarNode, ts[0].value, [])] + rest
      case _ => rest
  }

  lemma {:induction false} FringeConcat(a: seq<Tree>, b: seq<Tree>)
    ensures FringeAll(a + b) == FringeAll(a) + FringeAll(b)
  {
    if a == [] {
      assert a + b == b;
    } else {
      assert (a + b)[1..] == a[1..] + b;
      FringeConcat(a[1..], b);
    }
  }

  lemma FringeOne(t: Tree)
    ensures FringeAll([t]) == Fringe(t)
  {
    assert FringeAll([t][1..]) == [];
  }

  lemma {:induction false} ElementFringe(ts: seq<Token>)
    requires ts != []
    ensures var (e, rest) := ParseElement(ts); FringeAll(AsSeq(e)) + LeafTokens(rest) == LeafTokens(ts)
    decreases |ts|, 1
  {
    assert FringeAll([]) == [];
    hide ParseUntil, ParseCif, FringeAll;
    var e := ParseElement(ts).0;
    if e.Some? {
      FringeOne(e.value);
    }
    if ts[0].kind == CLoop {
      UntilFringe(ts[1..], {CEndLoop});
    } else if ts[0].kind == CStyle {
      UntilFringe(ts[1..], {CEndStyle});
    } else if ts[0].kind == CIf {
      IfFringe(ts);
    }
  }

  lemma {:induction false} IfFringe(ts: seq<Token>)
    requires ts != [] && ts[0].kind == CIf
    ensures var (t, rest) := ParseCif(ts); Fringe(t) + LeafTokens(rest) == LeafTokens(ts)
    decreases |ts|, 0
  {
    hide ParseUntil, FringeAll;
    UntilFringe(ts[1..], {CElse, CEndIf});
    var (thn, rest) := ParseUntil(ts[1..], {CElse, CEndIf});
    if rest != [] && rest[0].kind == CElse {
      UntilFringe(rest[1..], {CEndIf});
      var els := Tree(ElseNode, "", ParseUntil(rest[1..], {CEndIf}).0);
      FringeConcat(thn, [els]);
      FringeOne(els);
    }
  }

  lemma {:induction false} UntilFringe(ts: seq<Token>, stops: set<TokenKind>)
    ensures var (es, rest) := ParseUntil(ts, stops); FringeAll(es) + LeafTokens(rest) == LeafTokens(ts)
    decreases |ts|, 2
  {
    if ts != [] && ts[0].kind !in stops {
      var (e, rest) := ParseElement(ts);
      ElementFringe(ts);
      UntilFringe(rest, stops);
      FringeConcat(AsSeq(e), ParseUntil(rest, stops).0);
    }
  }

  /** No text, code or variable is lost, duplicated or reordered by parsing. */
  lemma ParseKeepsLeaves(ts: seq<Token>)
    ensures Fringe(Parse(ts)) == LeafTokens(ts)
  {
    UntilFringe(ts, {});
  }

  // ---------------------------------------------------------------------- shape

  lemma IfShaped(v: string, thn: seq<Tree>, els: seq<Tree>)
    requires ShapedBody(thn)
    ensures Shaped(Tree(IfNode, v, thn))
    ensures ShapedBody(els) ==> Shaped(Tree(IfNode, v, thn + [Tree(ElseNode, "", els)]))
  {
    if thn != [] {
      ShapedBodyElements(thn, |thn| - 1);
    }
    assert (thn + [Tree(ElseNode, "", els)])[..|thn|] == thn;
  }

  lemma {:induction false} ElementShaped(ts: seq<Token>)
    requires ts != []
    ensures var e := ParseElement(ts).0; e.Some? ==> Shaped(e.value) && !e.value.kind.RootNode?
    decreases |ts|, 0
  {
    match ts[0].kind
    case CLoop => UntilShaped(ts[1..], {CEndLoop});
    case CStyle => UntilShaped(ts[1..], {CEndStyle});
    case CIf =>
      UntilShaped(ts[1..], {CElse, CEndIf});
      var (thn, rest) := ParseUntil(ts[1..], {CElse, CEndIf});
      if rest != [] && rest[0].kind == CElse {
        UntilShaped(rest[1..], {CEndIf});
        IfShaped(ts[0].value, thn, ParseUntil(rest[1..], {CEndIf}).0);
      } else {
        IfShaped(ts[0].value, thn, []);
      }
    case _ =>
  }

  lemma {:induction false} UntilShaped(ts: seq<Token>, stops: set<TokenKind>)
    ensures ShapedBody(ParseUntil(ts, stops).0)
    decreases |ts|, 1
  {
    if ts != [] && ts[0].kind !in stops {
      var (e, rest) := ParseElement(ts);
      ElementShaped(ts);
      UntilShaped(rest, stops);
      assert e.Some? ==> AsSeq(e)[1..] == [];
      ShapedBodyConcat(AsSeq(e), ParseUntil(rest, stops).0);
    }
  }

  /** Every token stream parses to the end, and to a tree whose `celse` nodes are
      single last children of `cif` nodes. */
  lemma ParseIsShaped(ts: seq<Token>)
    ensures Shaped(Parse(ts)) && ParseUntil(ts, {}).1 == []
  {
    UntilShaped(ts, {});
  }

  // ----------------------------------------------------------------- round trip

  function Tok(k: TokenKind, v: string): Token {
    Token(k, v, 0, 0)
  }

  /** Write a tree back as tokens. */
  function Flatten(t: Tree): seq<Token> {
    match t.kind
    case HtmlNode => [Tok(HtmlText, t.content)]
    case CodeNode => [Tok(CCode, t.content)]
    case VarNode => [Tok(Variable, t.content)]
    case LoopNode => [Tok(CLoop, t.content)] + FlattenAll(t.children) + [Tok(CEndLoop, "")]
    case StyleNode => [Tok(CStyle, t.content)] + FlattenAll(t.children) + [Tok(CEndStyle, "")]
    case IfNode =>
      if t.children != [] && t.children[|t.children| - 1].kind == ElseNode then
        [Tok(CIf, t.content)] + FlattenAll(t.children[..|t.children| - 1]) + [Tok(CElse, "")]
        + FlattenAll(t.children[|t.children| - 1].children) + [Tok(CEndIf, "")]
      else [Tok(CIf, t.content)] + FlattenAll(t.children) + [Tok(CEndIf, "")]
    case _ => FlattenAll(t.children)
  }

  function FlattenAll(cs: seq<Tree>): seq<Token> {
    if cs == [] then [] else Flatten(cs[0]) + FlattenAll(cs[1..])
  }

  const CLOSERS: set<TokenKind> := {CEndLoop, CEndStyle, CElse, CEndIf}

  lemma {:induction false} ElementBack(t: Tree, rest: seq<Token>)
    requires Shaped(t) && !t.kind.RootNode?
    ensures ParseElement(Flatten(t) + rest) == (Some(t), rest)
    decreases t, 1
  {
    FlattenOpens(t);
    if t.kind == LoopNode || t.kind == StyleNode {
      BlockBack(t, rest);
      hide Flatten, ParseElement;
    } else if t.kind == IfNode {
      IfBack(t, rest);
      hide Flatten, ParseCif, ParseUntil;
    } else {
      assert (Flatten(t) + rest)[1..] == rest;
      hide ParseUntil, FlattenAll, ParseCif;
    }
  }

  lemma FlattenOpens(t: Tree)
    requires Shaped(t) && !t.kind.RootNode?
    ensures Flatten(t) != [] && Flatten(t)[0].kind !in CLOSERS
    ensures t.kind == IfNode ==> Flatten(t)[0].kind == CIf
  {
    hide FlattenAll, ShapedBody;
  }

  lemma {:induction false} BlockBack(t: Tree, rest: seq<Token>)
    requires Shaped(t) && (t.kind == LoopNode || t.kind == StyleNode)
    ensures ParseElement(Flatten(t) + rest) == (Some(t), rest)
    decreases t, 0
  {
    var (open, close) := if t.kind == LoopNode then (CLoop, CEndLoop) else (CStyle, CEndStyle);
    BodyBack(t.children, [Tok(close, "")] + rest, {close});
    Regroup(Tok(open, t.content), FlattenAll(t.children), [], [], [Tok(close, "")], rest);
    assert ([Tok(close, "")] + rest)[1..] == rest;
    hide ParseUntil, FlattenAll, ParseCif;
  }

  lemma {:induction false} IfBack(t: Tree, rest: seq<Token>)
    requires Shaped(t) && t.kind == IfNode
    ensures ParseCif(Flatten(t) + rest) == (t, rest)
    decreases t, 0
  {
    var close := [Tok(CEndIf, "")] + rest;
    assert close[1..] == rest;
    var n := |t.children| - 1;
    if t.children != [] && t.children[n].kind == ElseNode {
      var thn, els := t.children[..n], t.children[n].children;
      BodyBack(thn, [Tok(CElse, "")] + FlattenAll(els) + close, {CElse, CEndIf});
      BodyBack(els, close, {CEndIf});
      assert t.children == thn + [Tree(ElseNode, "", els)];
      IfElseReads(Tok(CIf, t.content), thn, els, rest);
    } else {
      BodyBack(t.children, close, {CElse, CEndIf});
      Regroup(Tok(CIf, t.content), FlattenAll(t.children), [], [], [Tok(CEndIf, "")], rest);
    }
    hide FlattenAll, ParseUntil;
  }

  lemma IfElseReads(open: Token, thn: seq<Tree>, els: seq<Tree>, rest: seq<Token>)
    requires open.kind == CIf
    requires var close := [Tok(CEndIf, "")] + rest;
             var elseTokens := [Tok(CElse, "")] + FlattenAll(els) + close;
             && ParseUntil(FlattenAll(thn) + elseTokens, {CElse, CEndIf}) == (thn, elseTokens)
             && ParseUntil(FlattenAll(els) + close, {CEndIf}) == (els, close)
    ensures ParseCif([open] + FlattenAll(thn) + [Tok(CElse, "")] + FlattenAll(els) + [Tok(CEndIf, "")] + rest)
            == (Tree(IfNode, open.value, thn + [Tree(ElseNode, "", els)]), rest)
  {
    hide FlattenAll, ParseUntil;
    var close := [Tok(CEndIf, "")] + rest;
    var elseTokens := [Tok(CElse, "")] + FlattenAll(els) + close;
    Regroup(open, FlattenAll(thn), [Tok(CElse, "")], FlattenAll(els), [Tok(CEndIf, "")], rest);
    assert elseTokens[1..] == FlattenAll(els) + close;
    assert close[1..] == rest;
  }

  lemma Regroup<T>(x: T, b: seq<T>, c: seq<T>, d: seq<T>, e: seq<T>, rest: seq<T>)
    ensures [x] + b + c + d + e + rest == [x] + (b + (c + d + (e + rest)))
    ensures [x] + b + e + rest == [x] + (b + (e + rest))
  {}

  lemma {:induction false} BodyBack(cs: seq<Tree>, rest: seq<Token>, stops: set<TokenKind>)
    requires ShapedBody(cs) && stops <= CLOSERS && (rest == [] || rest[0].kind in stops)
    ensures ParseUntil(FlattenAll(cs) + rest, stops) == (cs, rest)
    decreases cs, 2
  {
    if cs == [] {
      assert FlattenAll(cs) + rest == rest;
    } else {
      var tail := FlattenAll(cs[1..]) + rest;
      assert FlattenAll(cs) + rest == Flatten(cs[0]) + tail;
      ElementBack(cs[0], tail);
      FlattenOpens(cs[0]);
      BodyBack(cs[1..], rest, stops);
      assert cs == [cs[0]] + cs[1..];
    }
  }

  /** Parser and printer undo each other. */
  lemma ParseUndoesFlatten(t: Tree)
    requires t.kind == RootNode && t.content == "" && Shaped(t)
    ensures Parse(Flatten(t)) == t
  {
    BodyBack(t.children, [], {});
    assert FlattenAll(t.children) + [] == Flatten(t);
  }

  /** Parsing repairs a badly nested stream once: printing the tree and parsing it
      again changes nothing more. */
  lemma ParseIsRetraction(ts: seq<Token>)
    ensures Parse(Flatten(Parse(ts))) == Parse(ts)
  {
    ParseIsShaped(ts);
    ParseUndoesFlatten(Parse(ts));
  }
}
