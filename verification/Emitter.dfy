/** The two walks over heap nodes. They append lines to a file, and the variable
    nodes they print lose their type suffix in place. */
module Emitter {
  import opened Text
  import opened Escape
  import opened Ast
  import opened Literal
  import opened Tags
  import opened TagParser
  import opened Codegen
  import opened CodegenTheorems

  class CFile {
    var lines: seq<Line>

    constructor ()
      ensures lines == []
    {
      lines := [];
    }

    method Print(line: Line)
      modifies this
      ensures lines == old(lines) + [line]
    {
      lines := lines + [line];
    }
  }

  // ------------------------------------------------------------ the CSS predicate

  /** node_contains_css_content */
  method NodeHasCss(n: Node, inside: bool) returns (found: bool)
    requires n.Valid()
    ensures found == HasCss(n.tree, inside)
    decreases n.Repr, 1
  {
    hide StyleInfoOf, AnyCss;
    match n.kind {
      case HtmlNode => found := inside && n.content != "";
      case CodeNode => found := inside && n.content != "";
      case VarNode => found := inside && n.content != "";
      case StyleNode =>
        var info := ParseStyleTag(n.content);
        if info.inline && !inside {
          return false;
        }
        found := ChildrenHaveCss(n, if info.inline then inside else true);
      case _ => found := ChildrenHaveCss(n, inside);
    }
  }

  method ChildrenHaveCss(n: Node, inside: bool) returns (found: bool)
    requires n.Valid()
    ensures found == AnyCss(n.tree.children, inside)
    decreases n.Repr, 0
  {
    hide HasCss;
    ghost var cs := n.tree.children;
    for i := 0 to |n.children|
      invariant AnyCss(cs, inside) == AnyCss(cs[i..], inside)
    {
      var has := NodeHasCss(n.children[i], inside);
      if has {
        return true;
      }
      assert cs[i..][1..] == cs[i + 1..];
    }
    return false;
  }

  /** template_has_external_css */
  method TemplateHasExternal(n: Node) returns (found: bool)
    requires n.Valid()
    ensures found == HasExternal(n.tree)
    decreases n.Repr
  {
    hide HasCss, StyleInfoOf;
    if n.kind == StyleNode {
      var info := ParseStyleTag(n.content);
      if !info.inline {
        var has := NodeHasCss(n, false);
        if has {
          return true;
        }
      }
    }
    ghost var cs := n.tree.children;
    for i := 0 to |n.children|
      invariant AnyExternal(cs) == AnyExternal(cs[i..])
    {
      var has := TemplateHasExternal(n.children[i]);
      if has {
        return true;
      }
      assert cs[i..][1..] == cs[i + 1..];
    }
    return false;
  }

  // -------------------------------------------------------------------- variables

  /** remove_type_suffix on the text of a node */
  method RemoveTypeSuffix(n: Node, suffix: string)
    requires n.Valid()
    modifies n`content, n`tree
    ensures n.Valid() && n.content == RemoveSuffix(old(n.content), suffix)
    ensures n.tree == old(n.tree).(content := n.content)
  {
    if EndsWith(n.content, suffix) {
      n.content := n.content[..|n.content| - |suffix|];
    }
    n.tree := n.tree.(content := n.content);
  }

  /** Print the block that goes through a char array. */
  method PrintStored(out: CFile, conversion: Conversion, expr: string, escape: bool)
    modifies out
    ensures out.lines == old(out.lines) + StoredLines(conversion, expr, escape)
  {
    out.Print(Open);
    out.Print(Declare(TEMP_SIZE));
    out.Print(Store(conversion, expr));
    out.Print(OutStored(escape));
    out.Print(Close);
  }

  method PrintTime(out: CFile, expr: string, escape: bool)
    modifies out
    ensures out.lines == old(out.lines) + VarLines(VarForm(FTime, expr), escape)
  {
    out.Print(Open);
    out.Print(Declare(TIME_SIZE));
    out.Print(BreakDown(expr));
    out.Print(StoreTime);
    out.Print(OutStored(escape));
    out.Print(Close);
  }

  /** The lines of each form. */
  lemma FormLines()
    ensures forall e: string, escape: bool
              {:trigger VarLines(VarForm(FInt, e), escape)} {:trigger StoredLines(PercentD, e, escape)} ::
              VarLines(VarForm(FInt, e), escape) == VarLines(VarForm(FNumber, e), escape)
                == StoredLines(PercentD, e, escape)
    ensures forall e: string, escape: bool :: VarLines(VarForm(FLong, e), escape) == StoredLines(PercentLd, e, escape)
    ensures forall e: string, escape: bool :: VarLines(VarForm(FSize, e), escape) == StoredLines(PercentZu, e, escape)
    ensures forall e: string, escape: bool :: VarLines(VarForm(FFloat, e), escape) == StoredLines(PercentF, e, escape)
    ensures forall e: string, escape: bool :: VarLines(VarForm(FBool, e), escape) == [OutTruth(e, escape)]
    ensures forall e: string, escape: bool :: VarLines(VarForm(FString, e), escape) == [OutText(e, escape)]
    ensures forall e: string, escape: bool :: VarLines(VarForm(FHtml, e), escape) == [OutText(e, false)]
    ensures forall e: string, escape: bool :: VarLines(VarForm(FPlain, e), escape) == [OutIfSet(e, escape)]
  {}

  /** generate_variable_output */
  method GenerateVariableOutput(out: CFile, n: Node, escape: bool)
    requires n.Valid()
    modifies out, n`content, n`tree
    ensures n.Valid() && n.tree == old(n.tree).(content := FormOf(old(n.content)).expr)
    ensures out.lines == old(out.lines) + VarLines(FormOf(old(n.content)), escape)
  {
    hide Contains, RemoveSuffix, StoredLines, VarLines;
    assert n.tree.content == n.content;
    hide Node.Valid;
    FormLines();
    if Contains(n.content, ":int") {
      RemoveTypeSuffix(n, ":int");
      PrintStored(out, PercentD, n.content, escape);
    } else if Contains(n.content, ":long") {
      RemoveTypeSuffix(n, ":long");
      PrintStored(out, PercentLd, n.content, escape);
    } else if Contains(n.content, ":size_t") {
      RemoveTypeSuffix(n, ":size_t");
      PrintStored(out, PercentZu, n.content, escape);
    } else if Contains(n.content, ":float") || Contains(n.content, ":double") {
      RemoveTypeSuffix(n, ":float");
      RemoveTypeSuffix(n, ":double");
      PrintStored(out, PercentF, n.content, escape);
    } else if Contains(n.content, ":number") {
      RemoveTypeSuffix(n, ":number");
      PrintStored(out, PercentD, n.content, escape);
    } else if Contains(n.content, ":bool") {
      RemoveTypeSuffix(n, ":bool");
      out.Print(OutTruth(n.content, escape));
    } else if Contains(n.content, ":time") {
      RemoveTypeSuffix(n, ":time");
      PrintTime(out, n.content, escape);
    } else if Contains(n.content, ":string") {
      RemoveTypeSuffix(n, ":string");
      out.Print(OutText(n.content, escape));
    } else if Contains(n.content, ":html") {
      RemoveTypeSuffix(n, ":html");
      out.Print(OutText(n.content, false));
    } else {
      out.Print(OutIfSet(n.content, escape));
    }
  }

  // ----------------------------------------------------------- what the walks may read

  ghost predicate EachCompilable(cs: seq<Tree>) {
    forall i :: 0 <= i < |cs| ==> Compilable(cs[i])
  }

  lemma {:induction false} CompilableElements(cs: seq<Tree>)
    ensures CTrees(cs) && AllAttributesFit(cs) <==> EachCompilable(cs)
  {
    if cs != [] {
      hide CTree, AttributesFit;
      CompilableElements(cs[1..]);
      assert forall i :: 0 <= i < |cs| ==> cs[i] == if i == 0 then cs[0] else cs[1..][i - 1];
    }
  }

  lemma CompilableParts(t: Tree)
    ensures Compilable(t) <==>
              && NUL !in t.content && EachCompilable(t.children)
              && (t.kind == LoopNode ==> LoopFits(t.content)) && (t.kind == IfNode ==> ConditionFits(t.content))
  {
    CompilableElements(t.children);
    hide EachCompilable, LoopFits, ConditionFits, CTrees, AllAttributesFit;
  }

  lemma CutIsC(t: Tree)
    requires NUL !in t.content
    ensures NUL !in CutVar(t).content
  {
    hide Contains;
  }

  /** The walks change the texts of variables only. */
  lemma {:induction false} CompilableAfterCss(t: Tree, inside: bool)
    requires Compilable(t)
    ensures Compilable(AfterCss(t, inside))
    decreases t
  {
    var r := AfterCss(t, inside);
    CompilableParts(t);
    CompilableParts(r);
    if t.kind == VarNode {
      CutIsC(t);
      hide Compilable, CutVar;
      assert EachCompilable(r.children);
    } else {
      hide Compilable, LoopFits, ConditionFits;
      forall i | 0 <= i < |t.children|
        ensures Compilable(AfterCss(t.children[i], inside)) && Compilable(AfterCss(t.children[i], true))
      {
        assert Compilable(t.children[i]);
        CompilableAfterCss(t.children[i], inside);
        CompilableAfterCss(t.children[i], true);
      }
      AfterCssChildren(t, inside);
      hide AfterCss;
    }
  }

  lemma AfterCssChildren(t: Tree, inside: bool)
    requires t.kind != VarNode
    ensures var r := AfterCss(t, inside);
            && r.kind == t.kind && r.content == t.content && |r.children| == |t.children|
            && forall i :: 0 <= i < |t.children| ==>
                 || r.children[i] == t.children[i] || r.children[i] == AfterCss(t.children[i], inside)
                 || r.children[i] == AfterCss(t.children[i], true)
  {
    hide AnyCss, ThenCss, ElseCss, StyleInfoOf;
  }

  lemma {:induction false} CompilableAfterHtml(t: Tree)
    requires Compilable(t)
    ensures Compilable(AfterHtml(t))
    decreases t
  {
    var r := AfterHtml(t);
    CompilableParts(t);
    CompilableParts(r);
    if t.kind == VarNode {
      CutIsC(t);
      hide Compilable, CutVar;
      assert EachCompilable(r.children);
    } else {
      hide Compilable, LoopFits, ConditionFits;
      forall i | 0 <= i < |t.children|
        ensures Compilable(AfterHtml(t.children[i])) && Compilable(AfterCss(t.children[i], true))
      {
        assert Compilable(t.children[i]);
        CompilableAfterHtml(t.children[i]);
        CompilableAfterCss(t.children[i], true);
      }
      AfterHtmlChildren(t);
      hide AfterHtml;
    }
  }

  lemma AfterHtmlChildren(t: Tree)
    requires t.kind != VarNode
    ensures var r := AfterHtml(t);
            && r.kind == t.kind && r.content == t.content && |r.children| == |t.children|
            && forall i :: 0 <= i < |t.children| ==>
                 || r.children[i] == t.children[i] || r.children[i] == AfterHtml(t.children[i])
                 || r.children[i] == AfterCss(t.children[i], true)
  {
    hide AfterCss, StyleInfoOf, LastElse;
  }

  // ------------------------------------------------------------- the lines of tags

  /** The head of a loop, from the attributes in the arrays of the walk. */
  method PrintFor(out: CFile, tag: string)
    requires NUL !in tag && LoopFits(tag)
    modifies out
    ensures out.lines == old(out.lines) + ForLines(tag)
  {
    hide LoopParamsOf, CString;
    var varName, arrayExpr, countExpr := new char[ITEM_SIZE], new char[EXPR_SIZE], new char[EXPR_SIZE];
    var inside := ParseCloopParams(tag, varName, arrayExpr, countExpr);
    var count := ReadCString(countExpr);
    out.Print(ForOpen(count));
    var items := ReadCString(arrayExpr);
    if items != "" {
      var item := ReadCString(varName);
      out.Print(LetItem(item, items));
    }
  }

  /** The head of a branch, from the condition in the array of the walk. */
  method PrintIf(out: CFile, tag: string)
    requires NUL !in tag && ConditionFits(tag)
    modifies out
    ensures out.lines == old(out.lines) + [IfOpen(ConditionOf(tag))]
  {
    hide ConditionOf, CString;
    var condition := new char[EXPR_SIZE];
    var inside := ParseCifCondition(tag, condition);
    var text := ReadCString(condition);
    out.Print(IfOpen(text));
  }

  // ---------------------------------------------------------------- the CSS walk

  /** emit_css_node */
  method EmitCss(out: CFile, n: Node, inside: bool)
    requires n.Valid()
    requires Compilable(n.tree)
    modifies out, n.Repr
    ensures n.Valid() && n.Repr == old(n.Repr) && n.children == old(n.children)
    ensures n.tree == AfterCss(old(n.tree), inside)
    ensures out.lines == old(out.lines) + CssLines(old(n.tree), inside)
    decreases n.Repr, 3
  {
    CompilableParts(n.tree);
    hide StyleInfoOf, CssLines, AfterCss, Compilable, EachCompilable;
    if IsLeaf(n.kind) {
      EmitCssLeaf(out, n, inside);
    } else if n.kind == LoopNode {
      EmitCssLoop(out, n, inside);
    } else if n.kind == IfNode {
      EmitCssIf(out, n, inside);
    } else if n.kind == StyleNode {
      EmitCssStyle(out, n, inside);
    } else {
      OtherCss(n.tree, inside);
      EmitCssChildren(out, n, inside);
    }
  }

  lemma OtherCss(t: Tree, inside: bool)
    requires t.kind == ElseNode || t.kind == RootNode
    ensures CssLines(t, inside) == CssAll(t.children, inside)
    ensures AfterCss(t, inside) == t.(children := AfterCssAll(t.children, inside))
  {}

  /** The text, code and variable cases of emit_css_node. */
  method EmitCssLeaf(out: CFile, n: Node, inside: bool)
    requires n.Valid() && IsLeaf(n.kind)
    modifies out, n.Repr
    ensures n.Valid() && n.Repr == old(n.Repr) && n.children == old(n.children)
    ensures n.tree == AfterCss(old(n.tree), inside)
    ensures out.lines == old(out.lines) + CssLines(old(n.tree), inside)
  {
    hide FormOf, Quote;
    if inside && n.content != "" {
      if n.kind == HtmlNode {
        var lit := WriteEscapedString(n.content);
        out.Print(OutRaw(lit));
      } else if n.kind == CodeNode {
        out.Print(CodeLine(n.content));
      } else {
        GenerateVariableOutput(out, n, false);
      }
    }
  }

  lemma CompilableAt(cs: seq<Tree>, k: nat)
    requires EachCompilable(cs) && k < |cs|
    ensures Compilable(cs[k])
  {}

  lemma CssLoop(t: Tree, inside: bool)
    requires t.kind == LoopNode
    ensures CssLines(t, inside)
            == if AnyCss(t.children, inside) then ForLines(t.content) + CssAll(t.children, inside) + [Close] else []
    ensures AfterCss(t, inside)
            == if AnyCss(t.children, inside) then t.(children := AfterCssAll(t.children, inside)) else t
  {}

  lemma HtmlLoop(t: Tree)
    requires t.kind == LoopNode
    ensures HtmlLines(t) == ForLines(t.content) + HtmlAll(t.children) + [Close]
    ensures AfterHtml(t) == t.(children := AfterHtmlAll(t.children))
  {}

  lemma StyleUnfolds(t: Tree, inside: bool)
    requires t.kind == StyleNode
    ensures var info := StyleInfoOf(t.content);
            && CssLines(t, inside) == (if info.inline && !inside then [] else CssAll(t.children, true))
            && AfterCss(t, inside)
               == (if info.inline && !inside then t else t.(children := AfterCssAll(t.children, true)))
            && HtmlLines(t)
               == (if info.inline
                   then [StyleTag(Quote(StyleOpen(info)))] + CssAll(t.children, true) + [StyleTag(Quote("</style>"))]
                   else [])
            && AfterHtml(t) == (if info.inline then t.(children := AfterCssAll(t.children, true)) else t)
  {
    hide StyleInfoOf, StyleOpen, Quote;
  }

  /** The `cloop` case of emit_css_node. */
  method EmitCssLoop(out: CFile, n: Node, inside: bool)
    requires n.Valid() && n.kind == LoopNode
    requires Compilable(n.tree)
    modifies out, n.Repr
    ensures n.Valid() && n.Repr == old(n.Repr) && n.children == old(n.children)
    ensures n.tree == AfterCss(old(n.tree), inside)
    ensures out.lines == old(out.lines) + CssLines(old(n.tree), inside)
    decreases n.Repr, 2
  {
    hide AnyCss, CssAll, AfterCssAll, ForLines, Compilable, EachCompilable, LoopFits, CssLines, AfterCss, Node.Valid;
    RootOf(n);
    CompilableParts(n.tree);
    CssLoop(n.tree, inside);
    var has := ChildrenHaveCss(n, inside);
    if has {
      PrintFor(out, n.content);
      EmitCssChildren(out, n, inside);
      out.Print(Close);
    }
  }

  /** The `cstyle` case of emit_css_node. */
  method EmitCssStyle(out: CFile, n: Node, inside: bool)
    requires n.Valid() && n.kind == StyleNode
    requires Compilable(n.tree)
    modifies out, n.Repr
    ensures n.Valid() && n.Repr == old(n.Repr) && n.children == old(n.children)
    ensures n.tree == AfterCss(old(n.tree), inside)
    ensures out.lines == old(out.lines) + CssLines(old(n.tree), inside)
    decreases n.Repr, 2
  {
    hide StyleInfoOf, CssAll, AfterCssAll, Compilable, EachCompilable, CssLines, AfterCss, Node.Valid;
    RootOf(n);
    CompilableParts(n.tree);
    StyleUnfolds(n.tree, inside);
    var info := ParseStyleTag(n.content);
    if info.inline {
      if inside {
        EmitCssChildren(out, n, true);
      }
    } else {
      EmitCssChildren(out, n, true);
    }
  }

  /** Walk one child and keep the value of the parent up to date. */
  method EmitCssChild(out: CFile, n: Node, i: nat, inside: bool)
    requires n.Valid() && i < |n.children|
    requires Compilable(n.tree.children[i])
    modifies out, n.Repr
    ensures n.Valid() && n.Repr == old(n.Repr) && n.children == old(n.children) && n.content == old(n.content)
    ensures n.tree == old(n.tree).(children := old(n.tree).children[i := AfterCss(old(n.tree).children[i], inside)])
    ensures out.lines == old(out.lines) + CssLines(old(n.tree).children[i], inside)
    decreases n.Repr, 0
  {
    hide AfterCss, CssLines, Compilable;
    var child := n.children[i];
    EmitCss(out, child, inside);
    forall j | 0 <= j < |n.children| && j != i
      ensures n.children[j].Valid() && unchanged(n.children[j])
    {
      assert n.children[j].Repr !! child.Repr;
    }
    n.Refresh(i);
  }

  lemma AllAfterCss(after: seq<Tree>, cs: seq<Tree>, inside: bool)
    requires |after| == |cs| && forall j {:trigger after[j]} :: 0 <= j < |cs| ==> after[j] == AfterCss(cs[j], inside)
    ensures after == AfterCssAll(cs, inside)
  {}

  lemma AllAfterCssExcept(after: seq<Tree>, cs: seq<Tree>, skip: Option<nat>, inside: bool, also: bool)
    requires skip.Some? ==> skip.value < |cs| && cs[skip.value].kind == ElseNode
    requires |after| == |cs|
    requires forall j {:trigger after[j]} :: 0 <= j < |cs| ==>
               after[j] == if skip == Some(j) && !also then cs[j] else AfterCss(cs[j], inside)
    ensures after == AfterCssExcept(cs, skip, inside, also)
  {}

  lemma AllAfterHtml(after: seq<Tree>, cs: seq<Tree>)
    requires |after| == |cs| && forall j {:trigger after[j]} :: 0 <= j < |cs| ==> after[j] == AfterHtml(cs[j])
    ensures after == AfterHtmlAll(cs)
  {}

  /** emit_css_children, and the child loops of emit_css_node */
  method EmitCssChildren(out: CFile, n: Node, inside: bool)
    requires n.Valid()
    requires EachCompilable(n.tree.children)
    modifies out, n.Repr
    ensures n.Valid() && n.Repr == old(n.Repr) && n.children == old(n.children) && n.content == old(n.content)
    ensures n.tree == old(n.tree).(children := AfterCssAll(old(n.tree).children, inside))
    ensures out.lines == old(out.lines) + CssAll(old(n.tree).children, inside)
    decreases n.Repr, 1
  {
    hide AfterCss, CssLines, AfterCssAll, Compilable;
    ghost var cs, before := n.tree.children, out.lines;
    var count := |n.children|;
    for i := 0 to count
      invariant n.Valid() && n.Repr == old(n.Repr) && n.children == old(n.children) && n.content == old(n.content)
      invariant n.tree == old(n.tree).(children := n.tree.children) && |n.tree.children| == count
      invariant forall j {:trigger n.tree.children[j]} :: 0 <= j < count ==>
                  n.tree.children[j] == if j < i then AfterCss(cs[j], inside) else cs[j]
      invariant out.lines + CssAll(cs[i..], inside) == before + CssAll(cs, inside)
    {
      assert cs[i..][1..] == cs[i + 1..];
      EmitCssChild(out, n, i, inside);
    }
    AllAfterCss(n.tree.children, cs, inside);
  }

  /** Walk child k, a `celse`: that is walking its children. */
  method EmitCssElse(out: CFile, n: Node, k: nat, inside: bool)
    requires n.Valid() && k < |n.children| && n.children[k].kind == ElseNode
    requires Compilable(n.tree.children[k])
    modifies out, n.Repr
    ensures n.Valid() && n.Repr == old(n.Repr) && n.children == old(n.children) && n.content == old(n.content)
    ensures n.tree == old(n.tree).(children := old(n.tree).children[k := AfterCss(old(n.tree).children[k], inside)])
    ensures out.lines == old(out.lines) + CssAll(old(n.tree).children[k].children, inside)
    decreases n.Repr, 1
  {
    OtherCss(n.tree.children[k], inside);
    hide AfterCss, CssLines, Compilable;
    EmitCssChild(out, n, k, inside);
  }

  /** The lines CssExcept still owes from child i on. */
  ghost function ExceptFrom(cs: seq<Tree>, skip: Option<nat>, i: nat, inside: bool): seq<Line>
    requires i <= |cs| && (skip.Some? ==> skip.value < |cs|)
  {
    if skip.Some? && i <= skip.value
    then CssAll(cs[i..skip.value], inside) + CssAll(cs[skip.value + 1..], inside)
    else CssAll(cs[i..], inside)
  }

  lemma ExceptStep(cs: seq<Tree>, skip: Option<nat>, i: nat, inside: bool)
    requires i < |cs| && (skip.Some? ==> skip.value < |cs|)
    ensures ExceptFrom(cs, skip, i, inside)
            == (if skip == Some(i) then [] else CssLines(cs[i], inside)) + ExceptFrom(cs, skip, i + 1, inside)
  {
    hide CssLines;
    assert cs[i..][1..] == cs[i + 1..];
    if skip.Some? && i < skip.value {
      assert cs[i..skip.value][1..] == cs[i + 1..skip.value];
    }
  }

  lemma ExceptEnds(cs: seq<Tree>, skip: Option<nat>, inside: bool)
    requires skip.Some? ==> skip.value < |cs|
    ensures ExceptFrom(cs, skip, 0, inside) == CssExcept(cs, skip, inside)
    ensures ExceptFrom(cs, skip, |cs|, inside) == []
  {
    assert cs[0..] == cs && cs[|cs|..] == [];
    assert skip.Some? ==> cs[0..skip.value] == cs[..skip.value];
  }

  /** The first child loop of the `cif` case: where the else branch is, and which branch has CSS. */
  method FindCssBranches(n: Node, inside: bool) returns (last: Option<nat>, thenHas: bool, elseHas: bool)
    requires n.Valid()
    ensures last == LastElse(n.tree.children)
    ensures last.Some? ==> last.value < |n.children| && n.children[last.value].kind == ElseNode
    ensures thenHas == ThenCss(n.tree.children, inside) && elseHas == ElseCss(n.tree.children, inside)
    decreases n.Repr
  {
    hide HasCss;
    ghost var cs := n.tree.children;
    last, thenHas, elseHas := None, false, false;
    for i := 0 to |n.children|
      invariant last == LastElse(cs[..i])
      invariant elseHas == (last.Some? && HasCss(cs[last.value], inside))
      invariant (thenHas || ThenCss(cs[i..], inside)) == ThenCss(cs, inside)
    {
      assert cs[i..][1..] == cs[i + 1..];
      assert cs[..i + 1][..i] == cs[..i];
      var child := n.children[i];
      if child.kind == ElseNode {
        last := Some(i);
        elseHas := NodeHasCss(child, inside);
      } else if !thenHas {
        thenHas := NodeHasCss(child, inside);
      }
    }
    assert cs[..|n.children|] == cs;
  }

  /** The second child loop of the `cif` case: every child but the else branch. */
  method EmitCssThen(out: CFile, n: Node, skip: Option<nat>, inside: bool)
    requires n.Valid() && skip == LastElse(n.tree.children)
    requires EachCompilable(n.tree.children)
    modifies out, n.Repr
    ensures n.Valid() && n.Repr == old(n.Repr) && n.children == old(n.children) && n.content == old(n.content)
    ensures n.tree == old(n.tree).(children := AfterCssExcept(old(n.tree).children, skip, inside, false))
    ensures out.lines == old(out.lines) + CssExcept(old(n.tree).children, skip, inside)
    decreases n.Repr, 1
  {
    hide AfterCss, CssLines, CssAll, AfterCssAll, AfterCssExcept, ExceptFrom, CssExcept, LastElse, Compilable;
    ghost var cs, before := n.tree.children, out.lines;
    var count := |n.children|;
    ExceptEnds(cs, skip, inside);
    for i := 0 to count
      invariant n.Valid() && n.Repr == old(n.Repr) && n.children == old(n.children) && n.content == old(n.content)
      invariant n.tree == old(n.tree).(children := n.tree.children) && |n.tree.children| == count
      invariant forall j {:trigger n.tree.children[j]} :: 0 <= j < count ==>
                  n.tree.children[j] == if j < i && skip != Some(j) then AfterCss(cs[j], inside) else cs[j]
      invariant out.lines + ExceptFrom(cs, skip, i, inside) == before + CssExcept(cs, skip, inside)
    {
      ExceptStep(cs, skip, i, inside);
      if skip != Some(i) {
        EmitCssChild(out, n, i, inside);
      }
    }
    AllAfterCssExcept(n.tree.children, cs, skip, inside, false);
  }

  lemma AppendBlock(b: seq<Line>, o: Line, body: seq<Line>, els: seq<Line>)
    ensures b + [o] + body + [Close] == b + ([o] + body + [] + [Close])
    ensures b + [o] + body + [ElseLine] + els + [Close] == b + ([o] + body + ([ElseLine] + els) + [Close])
  {}

  /** The else child is reached after the others. */
  lemma ElseToo(cs: seq<Tree>, k: nat, inside: bool)
    requires k < |cs| && cs[k].kind == ElseNode
    ensures var after := AfterCssExcept(cs, Some(k), inside, false);
            after[k] == cs[k] && after[k := AfterCss(cs[k], inside)] == AfterCssExcept(cs, Some(k), inside, true)
  {}

  /** The children when the first i of them have been reached, but no else child. */
  ghost function AfterThen(cs: seq<Tree>, i: nat): seq<Tree> {
    seq(|cs|, j requires 0 <= j < |cs| => if j < i && cs[j].kind != ElseNode then AfterHtml(cs[j]) else cs[j])
  }

  lemma AfterThenSteps(cs: seq<Tree>, i: nat)
    requires i < |cs|
    ensures AfterThen(cs, 0) == cs && |AfterThen(cs, i)| == |cs| && AfterThen(cs, i)[i] == cs[i]
    ensures AfterThen(cs, i + 1) == if cs[i].kind == ElseNode then AfterThen(cs, i)
                                    else AfterThen(cs, i)[i := AfterHtml(cs[i])]
  {
    hide AfterHtml;
  }

  lemma AfterThenStarts(cs: seq<Tree>)
    ensures AfterThen(cs, 0) == cs
  {
    hide AfterHtml;
  }

  /** The last else child is reached after the others. */
  lemma HtmlElseToo(cs: seq<Tree>, last: Option<nat>)
    requires last == LastElse(cs)
    ensures var after := AfterThen(cs, |cs|);
            && |after| == |cs|
            && (last.Some? ==> after[last.value] == cs[last.value] && cs[last.value].kind == ElseNode)
            && AfterHtmlIf(cs, last) == if last.Some? then after[last.value := AfterHtml(cs[last.value])] else after
  {
    var e := LastElse(cs);
    hide LastElse, AfterHtml;
    var after := AfterThen(cs, |cs|);
    AllAfterHtmlIf(if last.Some? then after[last.value := AfterHtml(cs[last.value])] else after, cs, last);
  }

  lemma RootOf(n: Node)
    requires n.Valid()
    ensures n.tree.kind == n.kind && n.tree.content == n.content && |n.tree.children| == |n.children|
    ensures forall i :: 0 <= i < |n.children| ==> n.tree.children[i].kind == n.children[i].kind
  {
    assert forall i {:trigger n.children[i]} :: 0 <= i < |n.children| ==> n.children[i].Valid();
  }

  /** The `cif` case of emit_css_node. */
  method EmitCssIf(out: CFile, n: Node, inside: bool)
    requires n.Valid() && n.kind == IfNode
    requires Compilable(n.tree)
    modifies out, n.Repr
    ensures n.Valid() && n.Repr == old(n.Repr) && n.children == old(n.children)
    ensures n.tree == AfterCss(old(n.tree), inside)
    ensures out.lines == old(out.lines) + CssLines(old(n.tree), inside)
    decreases n.Repr, 2
  {
    assert n.tree.kind == IfNode && n.tree.content == n.content;
    CompilableParts(n.tree);
    hide Compilable, EachCompilable, ConditionFits;
    CssIfUnfolds(n.tree, inside);
    hide CssLines, AfterCss, ThenCss, ElseCss, LastElse, CssExcept, CssAll, AfterCssExcept, Node.Valid;
    var last, thenHas, elseHas := FindCssBranches(n, inside);
    if thenHas || elseHas {
      EmitCssBranches(out, n, last, elseHas, inside);
    }
  }

  /** Both branches of a `cif` that has CSS content. */
  method EmitCssBranches(out: CFile, n: Node, last: Option<nat>, elseHas: bool, inside: bool)
    requires n.Valid() && last == LastElse(n.tree.children)
    requires NUL !in n.content && ConditionFits(n.content) && EachCompilable(n.tree.children)
    requires last.Some? ==> last.value < |n.children| && n.children[last.value].kind == ElseNode
    requires elseHas ==> last.Some?
    modifies out, n.Repr
    ensures n.Valid() && n.Repr == old(n.Repr) && n.children == old(n.children)
    ensures n.tree == old(n.tree).(children := AfterCssExcept(old(n.tree).children, last, inside, elseHas))
    ensures out.lines == old(out.lines)
            + ([IfOpen(ConditionOf(old(n.content)))] + CssExcept(old(n.tree).children, last, inside)
                         + (if elseHas then [ElseLine] + CssAll(old(n.tree).children[last.value].children, inside)
                           else []) + [Close])
    decreases n.Repr, 2, 0
  {
    hide AfterCss, LastElse, CssExcept, CssAll, ConditionOf, Node.Valid, AfterCssExcept, AfterCssAll, Compilable,
      ConditionFits;
    RootOf(n);
    ghost var cs, before := n.tree.children, out.lines;
    ghost var condition := ConditionOf(n.content);
    PrintIf(out, n.content);
    EmitCssThen(out, n, last, inside);
    if last.Some? {
      ElseToo(cs, last.value, inside);
      if elseHas {
        out.Print(ElseLine);
        EmitCssElse(out, n, last.value, inside);
      }
    }
    out.Print(Close);
    AppendBlock(before, IfOpen(condition), CssExcept(cs, last, inside),
                if elseHas then CssAll(cs[last.value].children, inside) else []);
  }

  // --------------------------------------------------------------- the HTML walk

  /** generate_html_node */
  method EmitHtml(out: CFile, n: Node)
    requires n.Valid()
    requires Compilable(n.tree)
    modifies out, n.Repr
    ensures n.Valid() && n.Repr == old(n.Repr) && n.children == old(n.children)
    ensures n.tree == AfterHtml(old(n.tree))
    ensures out.lines == old(out.lines) + HtmlLines(old(n.tree))
    decreases n.Repr, 3
  {
    CompilableParts(n.tree);
    hide StyleInfoOf, HtmlLines, AfterHtml, Compilable, EachCompilable;
    if IsLeaf(n.kind) {
      EmitHtmlLeaf(out, n);
    } else if n.kind == LoopNode {
      EmitHtmlLoop(out, n);
    } else if n.kind == IfNode {
      EmitHtmlIf(out, n);
    } else if n.kind == StyleNode {
      EmitHtmlStyle(out, n);
    } else {
      OtherHtml(n.tree);
      EmitHtmlChildren(out, n);
    }
  }

  lemma OtherHtml(t: Tree)
    requires t.kind == ElseNode || t.kind == RootNode
    ensures HtmlLines(t) == HtmlAll(t.children)
    ensures AfterHtml(t) == t.(children := AfterHtmlAll(t.children))
  {}

  /** The text, code and variable cases of generate_html_node. */
  method EmitHtmlLeaf(out: CFile, n: Node)
    requires n.Valid() && IsLeaf(n.kind)
    modifies out, n.Repr
    ensures n.Valid() && n.Repr == old(n.Repr) && n.children == old(n.children)
    ensures n.tree == AfterHtml(old(n.tree))
    ensures out.lines == old(out.lines) + HtmlLines(old(n.tree))
  {
    hide FormOf, Quote;
    if n.content != "" {
      if n.kind == HtmlNode {
        var lit := WriteEscapedString(n.content);
        out.Print(OutRaw(lit));
      } else if n.kind == CodeNode {
        out.Print(CodeLine(n.content));
      } else {
        GenerateVariableOutput(out, n, true);
      }
    }
  }

  /** The `cloop` case of generate_html_node. */
  method EmitHtmlLoop(out: CFile, n: Node)
    requires n.Valid() && n.kind == LoopNode
    requires Compilable(n.tree)
    modifies out, n.Repr
    ensures n.Valid() && n.Repr == old(n.Repr) && n.children == old(n.children)
    ensures n.tree == AfterHtml(old(n.tree))
    ensures out.lines == old(out.lines) + HtmlLines(old(n.tree))
    decreases n.Repr, 2
  {
    hide HtmlAll, AfterHtmlAll, ForLines, Compilable, EachCompilable, LoopFits, HtmlLines, AfterHtml, Node.Valid;
    RootOf(n);
    CompilableParts(n.tree);
    HtmlLoop(n.tree);
    PrintFor(out, n.content);
    EmitHtmlChildren(out, n);
    out.Print(Close);
  }

  /** The `cstyle` case of generate_html_node: only inline blocks, in a style element. */
  method EmitHtmlStyle(out: CFile, n: Node)
    requires n.Valid() && n.kind == StyleNode
    requires Compilable(n.tree)
    modifies out, n.Repr
    ensures n.Valid() && n.Repr == old(n.Repr) && n.children == old(n.children)
    ensures n.tree == AfterHtml(old(n.tree))
    ensures out.lines == old(out.lines) + HtmlLines(old(n.tree))
  {
    hide StyleInfoOf, StyleOpen, Quote, CssAll, AfterCssAll, Compilable, EachCompilable, HtmlLines, AfterHtml,
      Node.Valid;
    RootOf(n);
    CompilableParts(n.tree);
    StyleUnfolds(n.tree, false);
    var info := ParseStyleTag(n.content);
    if info.inline {
      var lit := WriteEscapedString(StyleOpen(info));
      out.Print(StyleTag(lit));
      EmitCssChildren(out, n, true);
      lit := WriteEscapedString("</style>");
      out.Print(StyleTag(lit));
    }
  }

  lemma AllAfterHtmlIf(after: seq<Tree>, cs: seq<Tree>, last: Option<nat>)
    requires |after| == |cs|
    requires forall j {:trigger after[j]} :: 0 <= j < |cs| ==>
               after[j] == if cs[j].kind == ElseNode && last != Some(j) then cs[j] else AfterHtml(cs[j])
    ensures after == AfterHtmlIf(cs, last)
  {}

  lemma HtmlThenStep(cs: seq<Tree>, i: nat)
    requires i < |cs|
    ensures HtmlThen(cs[i..]) == (if cs[i].kind == ElseNode then [] else HtmlLines(cs[i])) + HtmlThen(cs[i + 1..])
    ensures LastElse(cs[..i + 1]) == if cs[i].kind == ElseNode then Some(i) else LastElse(cs[..i])
  {
    assert cs[i..][1..] == cs[i + 1..];
    assert cs[..i + 1][..i] == cs[..i];
  }

  lemma HtmlThenEnds(cs: seq<Tree>)
    ensures cs[0..] == cs[..|cs|] == cs
    ensures HtmlThen(cs[|cs|..]) == [] && LastElse(cs[..0]) == None
  {}

  method EmitHtmlChild(out: CFile, n: Node, i: nat)
    requires n.Valid() && i < |n.children|
    requires Compilable(n.tree.children[i])
    modifies out, n.Repr
    ensures n.Valid() && n.Repr == old(n.Repr) && n.children == old(n.children) && n.content == old(n.content)
    ensures n.tree == old(n.tree).(children := old(n.tree).children[i := AfterHtml(old(n.tree).children[i])])
    ensures out.lines == old(out.lines) + HtmlLines(old(n.tree).children[i])
    decreases n.Repr, 0
  {
    hide AfterHtml, HtmlLines, Compilable;
    var child := n.children[i];
    EmitHtml(out, child);
    forall j | 0 <= j < |n.children| && j != i
      ensures n.children[j].Valid() && unchanged(n.children[j])
    {
      assert n.children[j].Repr !! child.Repr;
    }
    n.Refresh(i);
  }

  method EmitHtmlChildren(out: CFile, n: Node)
    requires n.Valid()
    requires EachCompilable(n.tree.children)
    modifies out, n.Repr
    ensures n.Valid() && n.Repr == old(n.Repr) && n.children == old(n.children) && n.content == old(n.content)
    ensures n.tree == old(n.tree).(children := AfterHtmlAll(old(n.tree).children))
    ensures out.lines == old(out.lines) + HtmlAll(old(n.tree).children)
    decreases n.Repr, 1
  {
    hide AfterHtml, HtmlLines, AfterHtmlAll, Compilable;
    ghost var cs, before := n.tree.children, out.lines;
    var count := |n.children|;
    for i := 0 to count
      invariant n.Valid() && n.Repr == old(n.Repr) && n.children == old(n.children) && n.content == old(n.content)
      invariant n.tree == old(n.tree).(children := n.tree.children) && |n.tree.children| == count
      invariant forall j {:trigger n.tree.children[j]} :: 0 <= j < count ==>
                  n.tree.children[j] == if j < i then AfterHtml(cs[j]) else cs[j]
      invariant out.lines + HtmlAll(cs[i..]) == before + HtmlAll(cs)
    {
      assert cs[i..][1..] == cs[i + 1..];
      EmitHtmlChild(out, n, i);
    }
    AllAfterHtml(n.tree.children, cs);
  }

  /** Walk child k, a `celse`: that is walking its children. */
  method EmitHtmlElse(out: CFile, n: Node, k: nat)
    requires n.Valid() && k < |n.children| && n.children[k].kind == ElseNode
    requires Compilable(n.tree.children[k])
    modifies out, n.Repr
    ensures n.Valid() && n.Repr == old(n.Repr) && n.children == old(n.children) && n.content == old(n.content)
    ensures n.tree == old(n.tree).(children := old(n.tree).children[k := AfterHtml(old(n.tree).children[k])])
    ensures out.lines == old(out.lines) + HtmlAll(old(n.tree).children[k].children)
    decreases n.Repr, 1
  {
    OtherHtml(n.tree.children[k]);
    hide AfterHtml, HtmlLines, Compilable;
    EmitHtmlChild(out, n, k);
  }

  /** The `cif` case of generate_html_node. */
  method EmitHtmlIf(out: CFile, n: Node)
    requires n.Valid() && n.kind == IfNode
    requires Compilable(n.tree)
    modifies out, n.Repr
    ensures n.Valid() && n.Repr == old(n.Repr) && n.children == old(n.children)
    ensures n.tree == AfterHtml(old(n.tree))
    ensures out.lines == old(out.lines) + HtmlLines(old(n.tree))
    decreases n.Repr, 2
  {
    hide HtmlLines, AfterHtml, AfterHtmlIf, LastElse, HtmlAll, HtmlThen, ConditionOf, Node.Valid, AfterThen,
         Compilable, ConditionFits, EachCompilable;
    RootOf(n);
    CompilableParts(n.tree);
    ghost var cs, before := n.tree.children, out.lines;
    HtmlIfUnfolds(n.tree);
    ghost var condition := ConditionOf(n.content);
    PrintIf(out, n.content);
    var last := EmitHtmlThen(out, n);
    HtmlElseToo(cs, last);
    if last.Some? {
      RootOf(n);
      CompilableAt(cs, last.value);
      out.Print(ElseLine);
      EmitHtmlElse(out, n, last.value);
    }
    out.Print(Close);
    AppendBlock(before, IfOpen(condition), HtmlThen(cs), if last.Some? then HtmlAll(cs[last.value].children) else []);
  }

  /** The child loop of the `cif` case: print the then branch, remember the last `celse`. */
  method EmitHtmlThen(out: CFile, n: Node) returns (last: Option<nat>)
    requires n.Valid()
    requires EachCompilable(n.tree.children)
    modifies out, n.Repr
    ensures n.Valid() && n.Repr == old(n.Repr) && n.children == old(n.children) && n.content == old(n.content)
    ensures last == LastElse(old(n.tree).children)
    ensures n.tree == old(n.tree).(children := AfterThen(old(n.tree).children, |n.children|))
    ensures out.lines == old(out.lines) + HtmlThen(old(n.tree).children)
    decreases n.Repr, 1
  {
    hide AfterHtml, HtmlLines, HtmlThen, LastElse, Node.Valid, AfterThen, Compilable;
    RootOf(n);
    ghost var cs, before := n.tree.children, out.lines;
    HtmlThenEnds(cs);
    AfterThenStarts(cs);
    var count := |n.children|;
    last := None;
    for i := 0 to count
      invariant n.Valid() && n.Repr == old(n.Repr) && n.children == old(n.children) && n.content == old(n.content)
      invariant n.tree == old(n.tree).(children := AfterThen(cs, i))
      invariant last == LastElse(cs[..i])
      invariant out.lines + HtmlThen(cs[i..]) == before + HtmlThen(cs)
    {
      HtmlThenStep(cs, i);
      AfterThenSteps(cs, i);
      RootOf(n);
      assert n.tree.children[i] == cs[i];
      ghost var rest := HtmlThen(cs[i + 1..]);
      if n.children[i].kind == ElseNode {
        last := Some(i);
        assert [] + rest == rest;
      } else {
        assert out.lines + (HtmlLines(cs[i]) + rest) == (out.lines + HtmlLines(cs[i])) + rest;
        EmitHtmlChild(out, n, i);
      }
    }
  }

  // ------------------------------------------------------------------ the C file

  /** The part of cweb_generate_c_file after parsing: the HTML function, and the CSS
      function when the gate opens. The CSS walk runs on the tree that the HTML walk
      has already cut, and still prints what the parsed tree asks for. */
  method GenerateCFile(root: Node) returns (program: Program)
    requires root.Valid() && Compilable(root.tree)
    modifies root.Repr
    ensures program == Compile(old(root.tree))
  {
    CompilableAfterHtml(root.tree);
    hide HasExternal, HtmlLines, CssLines, AfterHtml, CTree, AttributesFit;
    ghost var t := root.tree;
    var hasExternal := TemplateHasExternal(root);
    var html := new CFile();
    EmitHtml(html, root);
    assert html.lines == HtmlLines(t);
    var css := None;
    if hasExternal {
      HtmlWalkSparesCss(t);
      var file := new CFile();
      EmitCss(file, root, false);
      assert file.lines == CssLines(t, false);
      css := Some(file.lines);
    }
    program := Program(html.lines, css);
  }
}
