/** The texts in the tree of a template are C strings when the template is one. */
module TemplateTexts {
  import opened Text
  import opened Ast
  import opened Lexer
  import opened Parser

  ghost predicate CTokens(ts: seq<Token>) {
    forall i :: 0 <= i < |ts| ==> NUL !in ts[i].value
  }

  lemma SlicesAreC(s: string, i: nat, j: nat)
    requires i <= j <= |s| && NoNul(s)
    ensures NUL !in s[i..j] && NUL !in Trim(s[i..j])
  {
    hide TrimLeft, TrimRight;
  }

  lemma TokenIsC(s: string, p: nat)
    requires p < |s| && NoNul(s)
    ensures NUL !in TokenAt(s, p, CAP).value
  {
    hide CodeAt, ControlAt, VariableAt, ControlKind, SafeCode, CodeBodyEnd, VariableBodyEnd, TagBodyEnd, HtmlEnd,
      Trim, NoNul, BreakAt;
    StartsWithAngle(s, p);
    if CodeAt(s, p) {
      SlicesAreC(s, p + 2, CodeBodyEnd(s, p + 2, CAP));
    } else if ControlAt(s, p) {
      SlicesAreC(s, p, ControlLexeme(s, p, CAP).next);
    } else if VariableAt(s, p) {
      SlicesAreC(s, p + 1, VariableBodyEnd(s, p + 1, CAP));
    } else {
      SlicesAreC(s, p, HtmlEnd(s, p, CAP));
    }
  }

  lemma {:induction false} TokensAreC(s: string, p: nat)
    requires p <= |s| && NoNul(s)
    ensures CTokens(Tokens(s, p, CAP))
    decreases |s| - p
  {
    if p < |s| {
      TokenIsC(s, p);
      hide TokenAt, LexemeAt;
      TokensAreC(s, LexemeAt(s, p, CAP).next);
    }
  }

  lemma {:induction false} CTreesConcat(a: seq<Tree>, b: seq<Tree>)
    requires CTrees(a) && CTrees(b)
    ensures CTrees(a + b)
  {
    if a == [] {
      assert a + b == b;
    } else {
      hide CTree;
      assert (a + b)[1..] == a[1..] + b;
      CTreesConcat(a[1..], b);
    }
  }

  lemma OneTree(t: Tree)
    ensures CTree(t) <==> CTrees([t])
  {
    assert [t][1..] == [];
    hide CTree;
  }

  lemma {:induction false} ElementIsC(ts: seq<Token>)
    requires ts != [] && CTokens(ts)
    ensures var (e, rest) := ParseElement(ts); CTokens(rest) && CTrees(AsSeq(e))
    decreases |ts|, 1
  {
    assert CTrees([]);
    var e := ParseElement(ts).0;
    if e.Some? {
      OneTree(e.value);
    }
    match ts[0].kind
    case CLoop => BodyIsC(ts[1..], {CEndLoop});
    case CStyle => BodyIsC(ts[1..], {CEndStyle});
    case CIf => CifIsC(ts);
    case _ =>
  }

  lemma {:induction false} CifIsC(ts: seq<Token>)
    requires ts != [] && CTokens(ts)
    ensures var (t, rest) := ParseCif(ts); CTree(t) && CTokens(rest)
    decreases |ts|, 0
  {
    BodyIsC(ts[1..], {CElse, CEndIf});
    var (thn, rest) := ParseUntil(ts[1..], {CElse, CEndIf});
    if rest != [] && rest[0].kind == CElse {
      BodyIsC(rest[1..], {CEndIf});
      var e := Tree(ElseNode, "", ParseUntil(rest[1..], {CEndIf}).0);
      OneTree(e);
      CTreesConcat(thn, [e]);
      hide ParseUntil, CTrees;
    }
  }

  lemma {:induction false} BodyIsC(ts: seq<Token>, stops: set<TokenKind>)
    requires CTokens(ts)
    ensures var (es, rest) := ParseUntil(ts, stops); CTrees(es) && CTokens(rest)
    decreases |ts|, 2
  {
    if !(ts == [] || ts[0].kind in stops) {
      var (e, rest) := ParseElement(ts);
      ElementIsC(ts);
      BodyIsC(rest, stops);
      hide ParseElement, CTrees, CTokens;
      CTreesConcat(AsSeq(e), ParseUntil(rest, stops).0);
    }
  }

  /** The tree of a template. */
  ghost function TreeOf(template: string): Tree {
    Parse(Tokens(template, 0, CAP))
  }

  lemma TreeIsC(template: string)
    requires NoNul(template)
    ensures CTree(TreeOf(template))
  {
    TokensAreC(template, 0);
    BodyIsC(Tokens(template, 0, CAP), {});
    hide Tokens, ParseUntil, CTokens;
  }
}
