/** From the text of a template to the page: compile it, run it, take the buffer. */
module Rendering {
  import opened Text
  import opened Ast
  import opened Lexer
  import opened LexerTheorems
  import opened Parser
  import opened Literal
  import opened Escape
  import opened Tags
  import opened Codegen
  import opened CSemantics
  import opened CompilerCorrectness
  import opened CompilerTheorem
  import opened ParserTheorems
  import opened Execution
  import opened TemplateTexts
  import opened TemplateTheorem

  // -------------------------------------------------------- the attributes of a style

  lemma NextAttrIsC(c: string)
    requires c != "" && !EndsName(c[0]) && NUL !in c
    ensures NUL !in NextAttr(c).text && NUL !in NextAttr(c).rest
  {
    hide EndsName, NameLength, ValueOf, TrimRight, TrimSlashes;
    var behind := c[NameLength(c)..];
    var v := ValueOf(behind);
    RestIsTail(behind);
    assert NUL !in v.rest by { TailIsC(behind, v.rest); }
    assert v.rest == c[|c| - |v.rest|..];
    var text := c[..|c| - |v.rest|];
    assert TrimSlashes(TrimRight(text)) <= TrimRight(text) <= text;
  }

  lemma TailIsC(c: string, rest: string)
    requires NUL !in c && |rest| <= |c| && rest == c[|c| - |rest|..]
    ensures NUL !in rest
  {}

  predicate IsTail(t: string, s: string) {
    |t| <= |s| && t == s[|s| - |t|..]
  }

  lemma TailOfTail(a: string, b: string, c: string)
    requires IsTail(a, b) && IsTail(b, c)
    ensures IsTail(a, c)
  {}

  lemma RestIsTail(behind: string)
    ensures IsTail(ValueOf(behind).rest, behind)
  {
    hide AfterValue, TrimLeft, IsTail;
    var after := TrimLeft(behind);
    assert IsTail(after, behind) by { TrimIsTail(behind); }
    if after != "" && after[0] == '=' {
      var inner := TrimLeft(after[1..]);
      TrimIsTail(after[1..]);
      assert IsTail(after[1..], after) by { ShorterTail(after); }
      assert IsTail(AfterValue(inner), inner) by { ValueIsTail(inner); }
      TailOfTail(AfterValue(inner), inner, after[1..]);
      TailOfTail(AfterValue(inner), after[1..], after);
      TailOfTail(AfterValue(inner), after, behind);
    }
  }

  lemma TrimIsTail(s: string)
    ensures IsTail(TrimLeft(s), s)
  {}

  lemma ShorterTail(s: string)
    requires s != ""
    ensures IsTail(s[1..], s)
  {}

  lemma ValueIsTail(s: string)
    ensures IsTail(AfterValue(s), s)
  {}

  lemma AppendIsC(attributes: string, text: string, first: bool)
    requires |attributes| < ATTRIBUTES_SIZE && (!first ==> |attributes| + 1 < ATTRIBUTES_SIZE)
    requires NUL !in attributes && NUL !in text
    ensures NUL !in AppendAttr(attributes, text, first)
  {}

  /** One round of the attribute loop on text that starts with a name. */
  lemma Round(c: string, info: StyleInfo, first: bool)
    requires |info.attributes| < ATTRIBUTES_SIZE && c != "" && !EndsName(c[0])
    ensures var a := NextAttr(c);
            CollectFrom(c, info, first)
            == if a.name == "setinline" then CollectFrom(TrimLeft(a.rest), info.(inline := true), first)
               else if a.text == "" then CollectFrom(TrimLeft(a.rest), info, first)
               else if !first && |info.attributes| + 1 >= ATTRIBUTES_SIZE then info
               else CollectFrom(TrimLeft(a.rest),
                                info.(attributes := AppendAttr(info.attributes, a.text, first)), false)
  {
    hide NextAttr, EndsName, TrimLeft, AppendAttr;
  }

  lemma {:induction false} AttributesAreC(c: string, info: StyleInfo, first: bool)
    requires |info.attributes| < ATTRIBUTES_SIZE && NUL !in c && NUL !in info.attributes
    ensures NUL !in CollectFrom(c, info, first).attributes
    decreases |c|
  {
    if c != "" && !EndsName(c[0]) {
      var a := NextAttr(c);
      NextAttrIsC(c);
      Round(c, info, first);
      hide NextAttr, EndsName, TrimLeft, AppendAttr, CollectFrom;
      if a.name == "setinline" {
        AttributesAreC(TrimLeft(a.rest), info.(inline := true), first);
      } else if a.text == "" {
        AttributesAreC(TrimLeft(a.rest), info, first);
      } else if first || |info.attributes| + 1 < ATTRIBUTES_SIZE {
        AppendIsC(info.attributes, a.text, first);
        AttributesAreC(TrimLeft(a.rest), info.(attributes := AppendAttr(info.attributes, a.text, first)), false);
      }
    }
  }

  lemma StyleInfoIs(tag: string, i: nat, j: nat)
    requires Find(tag, 0, "<cstyle") == Some(i) && Find(tag, i + 7, ">") == Some(j) && i + 7 <= j <= |tag|
    ensures var raw := tag[i + 7..j];
            StyleInfoOf(tag) == CollectFrom(TrimLeft(raw[..Min(|raw|, RAW_SIZE - 1)]), StyleInfo(false, ""), true)
  {
    hide CollectFrom, TrimLeft, Find;
  }

  lemma AttributesOfTag(tag: string)
    requires NUL !in tag
    ensures NUL !in StyleInfoOf(tag).attributes
  {
    hide Find, CollectFrom, TrimLeft;
    var i := Find(tag, 0, "<cstyle");
    if i.Some? {
      var j := Find(tag, i.value + 7, ">");
      if j.Some? {
        hide StyleInfoOf;
        var raw := tag[i.value + 7..j.value];
        AttributesAreC(TrimLeft(raw[..Min(|raw|, RAW_SIZE - 1)]), StyleInfo(false, ""), true);
        StyleInfoIs(tag, i.value, j.value);
      }
    }
  }

  lemma StyleOpenIsC(tag: string)
    requires NUL !in tag
    ensures NUL !in StyleOpen(StyleInfoOf(tag))
  {
    AttributesOfTag(tag);
    hide StyleInfoOf;
  }

  // ------------------------------------------------------------- the generated lines

  lemma LineIsFine(l: Line, s: string)
    requires l == OutRaw(Quote(s)) || l == StyleTag(Quote(s))
    ensures NUL !in s ==> Fine(l)
  {
    QuotedValue(s);
    hide Quote, LiteralValue;
  }

  lemma VariableIsFine(form: VarForm, escape: bool)
    ensures FineLines(VarLines(form, escape))
  {
    hide LiteralValue;
  }

  lemma FineOne(l: Line)
    ensures Fine(l) <==> FineLines([l])
  {
    hide Fine;
    assert [l][0] == l;
  }

  lemma FineConcat(a: seq<Line>, b: seq<Line>)
    requires FineLines(a) && FineLines(b)
    ensures FineLines(a + b)
  {
    hide Fine;
  }

  lemma LeafIsFine(t: Tree, view: View)
    requires IsLeaf(t.kind) && NUL !in t.content
    ensures FineLines(Lines(t, view))
  {
    if t.kind == HtmlNode {
      LineIsFine(OutRaw(Quote(t.content)), t.content);
      FineOne(OutRaw(Quote(t.content)));
    } else if t.kind == CodeNode {
      FineOne(CodeLine(t.content));
    } else {
      VariableIsFine(FormOf(t.content), view == HtmlView);
    }
    hide Quote, Fine, FormOf, VarLines;
  }

  lemma {:induction false} LinesAreFine(t: Tree, view: View)
    requires Shaped(t) && CTree(t)
    ensures FineLines(Lines(t, view))
    decreases t, 1
  {
    if IsLeaf(t.kind) {
      LeafIsFine(t, view);
    } else if t.kind == LoopNode {
      LoopIsFine(t, view);
    } else if t.kind == IfNode {
      IfIsFine(t, view);
    } else if t.kind == StyleNode {
      StyleIsFine(t, view);
    } else {
      LinesAllAreFine(t.children, view);
      hide Fine;
    }
  }

  lemma {:induction false} LoopIsFine(t: Tree, view: View)
    requires t.kind == LoopNode && Shaped(t) && CTree(t)
    ensures FineLines(Lines(t, view))
    decreases t, 0
  {
    LinesAllAreFine(t.children, view);
    LoopLines(t, view);
    ForIsFine(t.content);
    FineConcat(ForLines(t.content), LinesAll(t.children, view));
    FineConcat(ForLines(t.content) + LinesAll(t.children, view), [Close]);
    hide Lines, LinesAll, Fine, ForLines;
  }

  lemma {:induction false} StyleIsFine(t: Tree, view: View)
    requires t.kind == StyleNode && Shaped(t) && CTree(t)
    ensures FineLines(Lines(t, view))
    decreases t, 0
  {
    hide FineLines, Quote, StyleOpen, StyleInfoOf, Lines, LinesAll;
    LinesAllAreFine(t.children, CssInside);
    StyleOpenIsC(t.content);
    StyleLines(t, view);
    NothingIsFine();
    WrappedIsFine(StyleOpen(StyleInfoOf(t.content)), LinesAll(t.children, CssInside));
  }

  lemma NothingIsFine()
    ensures FineLines([])
  {}

  lemma WrappedIsFine(head: string, css: seq<Line>)
    requires NUL !in head && FineLines(css)
    ensures FineLines([StyleTag(Quote(head))] + css + [StyleTag(Quote("</style>"))])
  {
    hide Fine, FineLines, Quote;
    LineIsFine(StyleTag(Quote(head)), head);
    LineIsFine(StyleTag(Quote("</style>")), "</style>");
    FineOne(StyleTag(Quote(head)));
    FineOne(StyleTag(Quote("</style>")));
    FineConcat([StyleTag(Quote(head))], css);
    FineConcat([StyleTag(Quote(head))] + css, [StyleTag(Quote("</style>"))]);
  }

  lemma ForIsFine(tag: string)
    ensures FineLines(ForLines(tag)) && FineLines([Close])
  {
    hide LoopParamsOf;
  }

  lemma {:induction false} IfIsFine(t: Tree, view: View)
    requires t.kind == IfNode && Shaped(t) && CTree(t)
    ensures FineLines(Lines(t, view))
    decreases t, 0
  {
    var thn, els := ThenPart(t.children), ElsePart(t.children);
    IfLines(t, view);
    PartsAreC(t.children);
    LinesAllAreFine(thn, view);
    if HasElse(t.children) {
      LinesAllAreFine(t.children[|t.children| - 1].children, view);
    } else {
      LinesAllStep([], view);
    }
    hide Lines, LinesAll, ConditionOf, Shaped, ShapedBody, Pruned;
    BranchIsFine(ConditionOf(t.content), LinesAll(thn, view), LinesAll(els, view), PrintsElse(t, view));
  }

  lemma BranchIsFine(condition: string, thn: seq<Line>, els: seq<Line>, hasElse: bool)
    requires FineLines(thn) && FineLines(els)
    ensures FineLines([]) && FineLines([IfOpen(condition)] + thn + (if hasElse then [ElseLine] + els else []) + [Close])
  {
    assert Fine(IfOpen(condition)) && Fine(ElseLine) && Fine(Close);
    hide Fine;
  }

  lemma PartsAreC(cs: seq<Tree>)
    requires CTrees(cs)
    ensures CTrees(ThenPart(cs)) && CTrees(ElsePart(cs))
  {
    if HasElse(cs) {
      var n := |cs| - 1;
      assert cs == cs[..n] + [cs[n]];
      CTreesSplit(cs[..n], [cs[n]]);
      OneTree(cs[n]);
    }
  }

  lemma {:induction false} CTreesSplit(a: seq<Tree>, b: seq<Tree>)
    requires CTrees(a + b)
    ensures CTrees(a) && CTrees(b)
  {
    if a == [] {
      assert a + b == b;
    } else {
      hide CTree;
      assert (a + b)[1..] == a[1..] + b;
      CTreesSplit(a[1..], b);
    }
  }

  lemma {:induction false} LinesAllAreFine(cs: seq<Tree>, view: View)
    requires ShapedBody(cs) && CTrees(cs)
    ensures FineLines(LinesAll(cs, view))
    decreases cs, 2
  {
    LinesAllStep(cs, view);
    if cs != [] {
      LinesAreFine(cs[0], view);
      LinesAllAreFine(cs[1..], view);
      hide Lines, LinesAll, Fine;
    }
  }

  // ------------------------------------------------------------------------ the page

  lemma TemplateIsFine(template: string)
    requires NoNul(template) && InBounds(template)
    ensures FineLines(Compile(TreeOf(template)).html)
    ensures Compile(TreeOf(template)).css.Some? ==> FineLines(Compile(TreeOf(template)).css.value)
  {
    hide FineLines, Tokens, Parse, HasExternal, AttributesFit, TokensFit;
    var t := TreeOf(template);
    ParseIsShaped(Tokens(template, 0, CAP));
    TreeIsC(template);
    LinesAreFine(t, HtmlView);
    LinesAreFine(t, CssOutside);
    hide HtmlLines, CssLines;
  }

  /** What calling the functions of a template gives, each from the program state g: the
      page and, when it is generated, the external style sheet. */
  method RenderTemplate<G>(template: string, sem: Sem<G>, g: G) returns (page: array<char>, css: Option<array<char>>)
    requires NoNul(template) && InBounds(template)
    ensures CString(page[..]) == Denote(sem, false, TreeOf(template), HtmlView, [], g).0
    ensures (if css.Some? then CString(css.value[..]) else "")
            == Denote(sem, false, TreeOf(template), CssOutside, [], g).0
  {
    hide Tokens, Parse, Denote, Run, HtmlLines, CssLines, FineLines, HasExternal, AttributesFit, TokensFit;
    var program := CompileTemplate(template);
    TemplateIsFine(template);
    ParseIsShaped(Tokens(template, 0, CAP));
    CompilerIsCorrect(sem, TreeOf(template), g);
    var after;
    page, after := RunProgram(sem, program.html, g);
    css := None;
    if program.css.Some? {
      var sheet;
      sheet, after := RunProgram(sem, program.css.value, g);
      css := Some(sheet);
    }
  }
}
