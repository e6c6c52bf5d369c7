/** The generated functions print what the template means. */
module CompilerCorrectness {
  import opened Text
  import opened Ast
  import opened Literal
  import opened Escape
  import opened Tags
  import opened Codegen
  import opened CodegenTheorems
  import opened CSemantics
  import opened VariableOutput

  // ------------------------------------------------------------------ the meaning

  /** The three ways a node is looked at: by the HTML function, by the CSS function
      outside style blocks, and inside a style block. */
  datatype View = HtmlView | CssOutside | CssInside

  predicate HasElse(cs: seq<Tree>) {
    cs != [] && cs[|cs| - 1].kind == ElseNode
  }

  function ThenPart(cs: seq<Tree>): seq<Tree> {
    if HasElse(cs) then cs[..|cs| - 1] else cs
  }

  function ElsePart(cs: seq<Tree>): seq<Tree> {
    if HasElse(cs) then cs[|cs| - 1].children else []
  }

  function ItemOf(p: LoopParams): Option<Item> {
    if p.items != "" then Some(Item(p.item, p.items)) else None
  }

  /** The text a template stands for: text verbatim, variables formatted by their type
      and escaped outside style blocks (real numbers cut to 31 characters unless `full` is
      asked for), `cif` choosing a branch, `cloop` repeating, an inline block in a style
      element, and an external block only in the CSS function. */
  function Denote<G>(sem: Sem<G>, full: bool, t: Tree, view: View, scope: Scope, g: G): Outcome<G>
    decreases t, 0
  {
    match t.kind
    case HtmlNode => (if view == CssOutside then "" else t.content, g)
    case CodeNode => if view == CssOutside || t.content == "" then ("", g) else sem.run(t.content, scope, g)
    case VarNode =>
      if view == CssOutside || t.content == "" then ("", g)
      else (Meant(sem, full, FormOf(t.content), view == HtmlView, scope, g), g)
    case LoopNode => DenoteFor(sem, full, t.children, LoopParamsOf(t.content), view, scope, 0, g)
    case IfNode =>
      if Holds(sem, ConditionOf(t.content), scope, g)
      then DenoteAll(sem, full, ThenPart(t.children), view, scope, g)
      else if HasElse(t.children) then DenoteAll(sem, full, t.children[|t.children| - 1].children, view, scope, g)
      else ("", g)
    case StyleNode =>
      if view == HtmlView && Inline(t) then
        var (o, g') := DenoteAll(sem, full, t.children, CssInside, scope, g);
        (StyleOpen(StyleInfoOf(t.content)) + o + "</style>", g')
      else if view == CssInside || (view == CssOutside && !Inline(t))
      then DenoteAll(sem, full, t.children, CssInside, scope, g)
      else ("", g)
    case _ => DenoteAll(sem, full, t.children, view, scope, g)
  }

  function DenoteAll<G>(sem: Sem<G>, full: bool, cs: seq<Tree>, view: View, scope: Scope, g: G): Outcome<G>
    decreases cs, 0
  {
    if cs == [] then ("", g)
    else
      var (o, g') := Denote(sem, full, cs[0], view, scope, g);
      var (o', g'') := DenoteAll(sem, full, cs[1..], view, scope, g');
      (o + o', g'')
  }

  function DenoteFor<G>(sem: Sem<G>, full: bool, body: seq<Tree>, p: LoopParams, view: View, scope: Scope, i: nat,
      g: G): Outcome<G>
    decreases body, SIZE_T - i
  {
    if i < Bound(sem, p.count, scope, g) then
      var (o, g') := DenoteAll(sem, full, body, view, scope + [Binding(ItemOf(p), i)], g);
      var (o', g'') := DenoteFor(sem, full, body, p, view, scope, i + 1, g');
      (o + o', g'')
    else ("", g)
  }

  // -------------------------------------------------------------- the lines by view

  function Lines(t: Tree, view: View): seq<Line> {
    if view == HtmlView then HtmlLines(t) else CssLines(t, view == CssInside)
  }

  function LinesAll(cs: seq<Tree>, view: View): seq<Line> {
    if view == HtmlView then HtmlAll(cs) else CssAll(cs, view == CssInside)
  }

  /** The CSS walk skips this subtree. */
  predicate Pruned(cs: seq<Tree>, view: View) {
    view != HtmlView && !AnyCss(cs, view == CssInside)
  }

  lemma LinesAllStep(cs: seq<Tree>, view: View)
    ensures cs == [] ==> LinesAll(cs, view) == []
    ensures cs != [] ==> LinesAll(cs, view) == Lines(cs[0], view) + LinesAll(cs[1..], view)
    ensures cs != [] && Pruned(cs, view) ==> Pruned(cs[1..], view) && !HasCss(cs[0], view == CssInside)
  {}

  lemma LoopLines(t: Tree, view: View)
    requires t.kind == LoopNode
    ensures Lines(t, view) == if Pruned(t.children, view) then []
                              else ForLines(t.content) + LinesAll(t.children, view) + [Close]
  {}

  lemma StyleLines(t: Tree, view: View)
    requires t.kind == StyleNode
    ensures var head := StyleOpen(StyleInfoOf(t.content));
            Lines(t, view)
            == if view == HtmlView && Inline(t)
               then [StyleTag(Quote(head))] + LinesAll(t.children, CssInside) + [StyleTag(Quote("</style>"))]
               else if view == CssInside || (view == CssOutside && !Inline(t)) then LinesAll(t.children, CssInside)
               else []
  {
    hide StyleInfoOf, StyleOpen, Quote, CssAll;
  }

  lemma {:induction false} HtmlThenOf(a: seq<Tree>, rest: seq<Tree>)
    requires ShapedBody(a) && (rest == [] || (|rest| == 1 && rest[0].kind == ElseNode))
    ensures HtmlThen(a + rest) == HtmlAll(a)
  {
    hide HtmlLines;
    if a == [] {
      assert a + rest == rest;
      assert rest != [] ==> rest[1..] == [];
    } else {
      assert (a + rest)[1..] == a[1..] + rest;
      HtmlThenOf(a[1..], rest);
    }
  }

  /** The else branch is printed: always by the HTML walk, when it has CSS by the other. */
  predicate PrintsElse(t: Tree, view: View) {
    LastElse(t.children).Some? && !Pruned(ElsePart(t.children), view)
  }

  lemma IfLines(t: Tree, view: View)
    requires t.kind == IfNode && Shaped(t)
    ensures ShapedBody(ThenPart(t.children)) && ShapedBody(ElsePart(t.children))
    ensures LastElse(t.children).None? ==> ElsePart(t.children) == []
    ensures Lines(t, view) ==
            if Pruned(ThenPart(t.children), view) && Pruned(ElsePart(t.children), view) then []
            else [IfOpen(ConditionOf(t.content))] + LinesAll(ThenPart(t.children), view)
                 + (if PrintsElse(t, view) then [ElseLine] + LinesAll(ElsePart(t.children), view) else []) + [Close]
  {
    ShapedIf(t, view == CssInside);
    if view == HtmlView {
      HtmlIfLines(t);
    } else {
      CssIfLines(t, view == CssInside);
    }
    hide CssLines, HtmlLines, CssAll, HtmlAll, AnyCss, ShapedBody, Shaped, ThenCss, CssExcept;
  }

  lemma HtmlIfLines(t: Tree)
    requires t.kind == IfNode && Shaped(t)
    ensures HtmlLines(t) == [IfOpen(ConditionOf(t.content))] + HtmlAll(ThenPart(t.children))
              + (if LastElse(t.children).Some? then [ElseLine] + HtmlAll(ElsePart(t.children)) else []) + [Close]
  {
    hide HtmlAll, HtmlThen, LastElse, ConditionOf, ShapedBody, Shaped, HtmlLines, ThenCss, AnyCss, CssAll, CssExcept;
    var cs, last, thn := t.children, LastElse(t.children), ThenPart(t.children);
    ShapedIf(t, false);
    HtmlIfUnfolds(t);
    if last.Some? {
      assert cs == thn + [cs[last.value]];
      HtmlThenOf(thn, [cs[last.value]]);
    } else {
      HtmlThenOf(cs, []);
      assert cs + [] == cs;
    }
  }

  lemma CssIfLines(t: Tree, inside: bool)
    requires t.kind == IfNode && Shaped(t)
    ensures CssLines(t, inside) ==
            if !AnyCss(ThenPart(t.children), inside) && !AnyCss(ElsePart(t.children), inside) then []
            else [IfOpen(ConditionOf(t.content))] + CssAll(ThenPart(t.children), inside)
                 + (if AnyCss(ElsePart(t.children), inside)
                   then [ElseLine] + CssAll(ElsePart(t.children), inside) else [])
                 + [Close]
  {
    hide CssLines, CssAll, AnyCss, ThenCss, ElseCss, CssExcept, LastElse, HasCss, ConditionOf, ShapedBody, Shaped;
    ShapedIf(t, inside);
    CssIfUnfolds(t, inside);
    ElseHasCss(t.children, inside);
  }

  /** The else branch has CSS when its children have; without one nothing is left out. */
  lemma ElseHasCss(cs: seq<Tree>, inside: bool)
    requires LastElse(cs).Some? ==> LastElse(cs).value == |cs| - 1
    ensures ElseCss(cs, inside) == AnyCss(ElsePart(cs), inside)
    ensures LastElse(cs).None? ==> CssExcept(cs, None, inside) == CssAll(cs, inside)
  {
    hide CssAll, AnyCss, LastElse;
    NothingIn(inside);
  }

  // ------------------------------------------------------------------ well-formed C

  lemma PrintBalanced(l: Line)
    requires l.OutRaw? || l.StyleTag? || l.CodeLine?
    ensures ReadStmt([l]).Some? && ReadStmt([l]).value.1 == [] && Balanced([l])
  {
    assert [l][1..] == [];
    assert ReadBlock([]) == ([], []);
    hide ReadStmt;
  }

  lemma EmptyBalanced()
    ensures Balanced([])
  {
    assert ReadBlock([]) == ([], []);
  }

  lemma ConcatBalanced(a: seq<Line>, b: seq<Line>)
    requires Balanced(a) && Balanced(b)
    ensures Balanced(a + b)
  {
    BlockConcat(a, b);
  }

  lemma NoStrayItem(body: seq<Line>)
    requires Balanced(body)
    ensures ItemAt(body + [Close]) == None
  {
    if body != [] {
      assert ReadStmt(body).Some?;
    }
  }

  lemma ForLinesAre(tag: string)
    ensures ForLines(tag) == ForLine(LoopParamsOf(tag).count, ItemOf(LoopParamsOf(tag)))
  {
    hide LoopParamsOf;
  }

  /** Both walks print well-formed C: every block they open is closed. */
  lemma {:induction false} LinesBalanced(t: Tree, view: View)
    requires Shaped(t)
    ensures Balanced(Lines(t, view))
    decreases t, 1
  {
    assert Balanced([]) by { assert ReadBlock([]) == ([], []); }
    if IsLeaf(t.kind) {
      LeafBalanced(t, view);
    } else if t.kind == LoopNode {
      LinesAllBalanced(t.children, view);
      LoopLines(t, view);
      ForLinesAre(t.content);
      hide Balanced, Lines, LinesAll, ReadStmt, ForLine;
      var p := LoopParamsOf(t.content);
      NoStrayItem(LinesAll(t.children, view));
      ReadFor(p.count, ItemOf(p), LinesAll(t.children, view));
      StmtBalanced(ForLines(t.content) + LinesAll(t.children, view) + [Close]);
    } else if t.kind == IfNode {
      IfBalanced(t, view);
    } else if t.kind == StyleNode {
      StyleBalanced(t, view);
    } else {
      LinesAllBalanced(t.children, view);
    }
  }

  lemma LeafBalanced(t: Tree, view: View)
    requires IsLeaf(t.kind)
    ensures Balanced(Lines(t, view))
  {
    assert Balanced([]) by { assert ReadBlock([]) == ([], []); }
    hide Balanced, FormOf, Quote, VarLines;
    var ls := Lines(t, view);
    if t.kind == VarNode {
      VariableBalanced(FormOf(t.content), view == HtmlView);
    } else if ls != [] {
      PrintBalanced(ls[0]);
      assert ls == [ls[0]];
    }
  }

  lemma {:induction false} StyleBalanced(t: Tree, view: View)
    requires t.kind == StyleNode && ShapedBody(t.children)
    ensures Balanced(Lines(t, view))
    decreases t, 0
  {
    hide Balanced, Quote, StyleOpen, StyleInfoOf, Lines, LinesAll;
    StyleLines(t, view);
    EmptyBalanced();
    LinesAllBalanced(t.children, CssInside);
    if view == HtmlView && Inline(t) {
      var open, close := StyleTag(Quote(StyleOpen(StyleInfoOf(t.content)))), StyleTag(Quote("</style>"));
      var css := LinesAll(t.children, CssInside);
      PrintBalanced(open);
      PrintBalanced(close);
      ConcatBalanced([open], css);
      ConcatBalanced([open] + css, [close]);
    }
  }

  lemma {:induction false} IfBalanced(t: Tree, view: View)
    requires t.kind == IfNode && Shaped(t)
    ensures Balanced(Lines(t, view))
    decreases t, 0
  {
    assert Balanced([]) by { assert ReadBlock([]) == ([], []); }
    IfLines(t, view);
    LinesAllBalanced(ThenPart(t.children), view);
    if HasElse(t.children) {
      LinesAllBalanced(t.children[|t.children| - 1].children, view);
    } else {
      LinesAllStep([], view);
    }
    hide Balanced, Lines, LinesAll, ReadStmt, Shaped, ShapedBody, ConditionOf;
    ReadIf(ConditionOf(t.content), LinesAll(ThenPart(t.children), view));
    ReadIfElse(ConditionOf(t.content), LinesAll(ThenPart(t.children), view), LinesAll(ElsePart(t.children), view));
    assert [IfOpen(ConditionOf(t.content))] + LinesAll(ThenPart(t.children), view) + []
           == [IfOpen(ConditionOf(t.content))] + LinesAll(ThenPart(t.children), view);
    if !(Pruned(ThenPart(t.children), view) && Pruned(ElsePart(t.children), view)) {
      StmtBalanced(Lines(t, view));
    }
  }

  lemma {:induction false} LinesAllBalanced(cs: seq<Tree>, view: View)
    requires ShapedBody(cs)
    ensures Balanced(LinesAll(cs, view))
    decreases cs, 2
  {
    LinesAllStep(cs, view);
    if cs == [] {
      assert ReadBlock([]) == ([], []);
    } else {
      LinesBalanced(cs[0], view);
      LinesAllBalanced(cs[1..], view);
      hide Balanced, Lines, LinesAll;
      ConcatBalanced(Lines(cs[0], view), LinesAll(cs[1..], view));
    }
  }

  // ----------------------------------------------------------- pruning is harmless

  /** A subtree without CSS content prints nothing and changes nothing, although the
      unpruned walk would still run its loops and evaluate its conditions. */
  lemma {:induction false} SilentWithoutCss<G>(sem: Sem<G>, full: bool, t: Tree, view: View, scope: Scope, g: G)
    requires Shaped(t) && view != HtmlView && !HasCss(t, view == CssInside)
    ensures Denote(sem, full, t, view, scope, g) == ("", g)
    decreases t, 1
  {
    if t.kind == LoopNode {
      SilentFor(sem, full, t.children, LoopParamsOf(t.content), view, scope, 0, g);
    } else if t.kind == IfNode {
      SilentIf(sem, full, t, view, scope, g);
    } else if t.kind == StyleNode {
      if view == CssInside || !Inline(t) {
        SilentAll(sem, full, t.children, CssInside, scope, g);
      }
    } else if !IsLeaf(t.kind) {
      SilentAll(sem, full, t.children, view, scope, g);
    }
  }

  lemma {:induction false} SilentIf<G>(sem: Sem<G>, full: bool, t: Tree, view: View, scope: Scope, g: G)
    requires t.kind == IfNode && Shaped(t) && view != HtmlView && !HasCss(t, view == CssInside)
    ensures Denote(sem, full, t, view, scope, g) == ("", g)
    decreases t, 0
  {
    IfDenotes(sem, full, t, view, scope, g);
    SilentParts(t, view == CssInside);
    hide AnyCss, ShapedBody, Shaped, HasCss, Denote, LastElse;
    SilentAll(sem, full, ThenPart(t.children), view, scope, g);
    if HasElse(t.children) {
      SilentAll(sem, full, t.children[|t.children| - 1].children, view, scope, g);
    } else {
      assert DenoteAll(sem, full, [], view, scope, g) == ("", g);
    }
  }

  lemma SilentParts(t: Tree, inside: bool)
    requires t.kind == IfNode && Shaped(t) && !HasCss(t, inside)
    ensures ShapedBody(ThenPart(t.children)) && !AnyCss(ThenPart(t.children), inside)
    ensures ShapedBody(ElsePart(t.children)) && !AnyCss(ElsePart(t.children), inside)
  {
    hide AnyCss, Shaped, ShapedBody, ThenCss, CssExcept, LastElse;
    var cs := t.children;
    ShapedIf(t, inside);
    NothingIn(inside);
    if cs != [] {
      AnyCssSplit(cs, inside);
    }
  }

  lemma NothingIn(inside: bool)
    ensures ShapedBody([]) && !AnyCss([], inside)
  {}

  lemma {:induction false} SilentAll<G>(sem: Sem<G>, full: bool, cs: seq<Tree>, view: View, scope: Scope, g: G)
    requires ShapedBody(cs) && Pruned(cs, view)
    ensures DenoteAll(sem, full, cs, view, scope, g) == ("", g)
    decreases cs, 2, 0
  {
    if cs != [] {
      SilentWithoutCss(sem, full, cs[0], view, scope, g);
      SilentAll(sem, full, cs[1..], view, scope, g);
      assert "" + "" == "";
    }
  }

  lemma {:induction false} SilentFor<G>(sem: Sem<G>, full: bool, cs: seq<Tree>, p: LoopParams, view: View,
      scope: Scope, i: nat, g: G)
    requires ShapedBody(cs) && Pruned(cs, view)
    ensures DenoteFor(sem, full, cs, p, view, scope, i, g) == ("", g)
    decreases cs, 3, SIZE_T - i
  {
    if i < Bound(sem, p.count, scope, g) {
      SilentAll(sem, full, cs, view, scope + [Binding(ItemOf(p), i)], g);
      SilentFor(sem, full, cs, p, view, scope, i + 1, g);
      assert "" + "" == "";
    }
  }

  lemma IfDenotes<G>(sem: Sem<G>, full: bool, t: Tree, view: View, scope: Scope, g: G)
    requires t.kind == IfNode
    ensures Denote(sem, full, t, view, scope, g)
            == DenoteAll(sem, full,
                 if Holds(sem, ConditionOf(t.content), scope, g) then ThenPart(t.children) else ElsePart(t.children),
                 view, scope, g)
  {
    assert DenoteAll(sem, full, [], view, scope, g) == ("", g);
  }

  // ------------------------------------------------------------------ correctness

  /** Running the lines of a subtree gives its meaning. */
  lemma {:induction false} LinesMean<G>(sem: Sem<G>, t: Tree, view: View, scope: Scope, g: G)
    requires Shaped(t)
    ensures Run(sem, Lines(t, view), scope, g) == Denote(sem, false, t, view, scope, g)
    decreases t, 4
  {
    if IsLeaf(t.kind) {
      LeafMeans(sem, t, view, scope, g);
    } else if t.kind == LoopNode {
      LoopMeans(sem, t, view, scope, g);
    } else if t.kind == IfNode {
      IfMeans(sem, t, view, scope, g);
    } else if t.kind == StyleNode {
      StyleMeans(sem, t, view, scope, g);
    } else {
      LinesAllMean(sem, t.children, view, scope, g);
    }
  }

  lemma QuotedValue(s: string)
    ensures LiteralValue(Quote(s)) == s
  {
    LiteralRoundTrip(s, "");
    assert Quote(s) + "" == Quote(s);
    hide Quote, DecodeLiteral;
  }

  lemma RunPrint<G>(sem: Sem<G>, l: Line, scope: Scope, g: G)
    requires l.OutRaw? || l.StyleTag? || l.CodeLine?
    ensures Balanced([l])
    ensures Run(sem, [l], scope, g) == ExecOne(sem, ReadStmt([l]).value.0, scope, g)
    ensures l.OutRaw? || l.StyleTag? ==> Run(sem, [l], scope, g) == (LiteralValue(l.lit), g)
    ensures l.CodeLine? ==> Run(sem, [l], scope, g) == sem.run(l.text, scope, g)
  {
    PrintBalanced(l);
    hide Run, Balanced;
    RunOne(sem, [l], scope, g);
  }

  lemma LeafMeans<G>(sem: Sem<G>, t: Tree, view: View, scope: Scope, g: G)
    requires IsLeaf(t.kind)
    ensures Run(sem, Lines(t, view), scope, g) == Denote(sem, false, t, view, scope, g)
  {
    RunEmpty(sem, scope, g);
    QuotedValue(t.content);
    hide Run, Quote, FormOf, LiteralValue, Meant, VarLines, Balanced;
    var ls := Lines(t, view);
    if t.kind == VarNode {
      VariableLinesMean(sem, FormOf(t.content), view == HtmlView, scope, g);
    } else if ls != [] {
      assert ls == [ls[0]];
      RunPrint(sem, ls[0], scope, g);
    }
  }

  lemma {:induction false} LinesAllMean<G>(sem: Sem<G>, cs: seq<Tree>, view: View, scope: Scope, g: G)
    requires ShapedBody(cs)
    ensures Run(sem, LinesAll(cs, view), scope, g) == DenoteAll(sem, false, cs, view, scope, g)
    decreases cs, 5, 0
  {
    LinesAllStep(cs, view);
    if cs == [] {
      RunEmpty(sem, scope, g);
    } else {
      LinesBalanced(cs[0], view);
      LinesAllBalanced(cs[1..], view);
      LinesMean(sem, cs[0], view, scope, g);
      var g' := Denote(sem, false, cs[0], view, scope, g).1;
      LinesAllMean(sem, cs[1..], view, scope, g');
      hide Run, Balanced, Lines, LinesAll, Denote;
      RunConcat(sem, Lines(cs[0], view), LinesAll(cs[1..], view), scope, g);
    }
  }

  lemma ForRuns<G>(sem: Sem<G>, count: string, item: Option<Item>, body: seq<Stmt>, scope: Scope, i: nat, g: G)
    ensures i >= Bound(sem, count, scope, g) ==> ExecFor(sem, count, item, body, scope, i, g) == ("", g)
    ensures i < Bound(sem, count, scope, g) ==>
              var (o, g') := Exec(sem, body, scope + [Binding(item, i)], g);
              var (o', g'') := ExecFor(sem, count, item, body, scope, i + 1, g');
              ExecFor(sem, count, item, body, scope, i, g) == (o + o', g'')
  {
    hide Exec, Bound;
  }

  lemma ForDenotes<G>(sem: Sem<G>, cs: seq<Tree>, p: LoopParams, view: View, scope: Scope, i: nat, g: G)
    ensures i >= Bound(sem, p.count, scope, g) ==> DenoteFor(sem, false, cs, p, view, scope, i, g) == ("", g)
    ensures i < Bound(sem, p.count, scope, g) ==>
              var (o, g') := DenoteAll(sem, false, cs, view, scope + [Binding(ItemOf(p), i)], g);
              var (o', g'') := DenoteFor(sem, false, cs, p, view, scope, i + 1, g');
              DenoteFor(sem, false, cs, p, view, scope, i, g) == (o + o', g'')
  {
    hide DenoteAll, Bound;
  }

  lemma {:induction false} ForMeans<G>(sem: Sem<G>, cs: seq<Tree>, p: LoopParams, view: View, scope: Scope, i: nat,
      g: G)
    requires ShapedBody(cs)
    ensures ExecFor(sem, p.count, ItemOf(p), ReadBlock(LinesAll(cs, view)).0, scope, i, g)
            == DenoteFor(sem, false, cs, p, view, scope, i, g)
    decreases cs, 6, SIZE_T - i
  {
    ForRuns(sem, p.count, ItemOf(p), ReadBlock(LinesAll(cs, view)).0, scope, i, g);
    ForDenotes(sem, cs, p, view, scope, i, g);
    if i < Bound(sem, p.count, scope, g) {
      var inner := scope + [Binding(ItemOf(p), i)];
      LinesAllMean(sem, cs, view, inner, g);
      hide Exec, ExecFor, DenoteAll, DenoteFor, LinesAll, ReadBlock, Bound, ShapedBody;
      ForMeans(sem, cs, p, view, scope, i + 1, DenoteAll(sem, false, cs, view, inner, g).1);
    }
  }

  /** Complete lines between the lines of a loop run as its body. */
  lemma LoopRuns<G>(sem: Sem<G>, tag: string, body: seq<Line>, scope: Scope, g: G)
    requires Balanced(body)
    ensures var p := LoopParamsOf(tag);
            Run(sem, ForLines(tag) + body + [Close], scope, g)
            == ExecFor(sem, p.count, ItemOf(p), ReadBlock(body).0, scope, 0, g)
  {
    hide Run, Balanced, ReadStmt, ReadBlock, ForLine, ForLines, ExecFor, LoopParamsOf, ItemAt, ItemOf;
    ForLinesAre(tag);
    NoStrayItem(body);
    var p := LoopParamsOf(tag);
    ReadFor(p.count, ItemOf(p), body);
    RunOne(sem, ForLine(p.count, ItemOf(p)) + body + [Close], scope, g);
  }

  lemma {:induction false} LoopMeans<G>(sem: Sem<G>, t: Tree, view: View, scope: Scope, g: G)
    requires t.kind == LoopNode && ShapedBody(t.children)
    ensures Run(sem, Lines(t, view), scope, g) == Denote(sem, false, t, view, scope, g)
    decreases t, 0
  {
    var p, body := LoopParamsOf(t.content), LinesAll(t.children, view);
    LoopLines(t, view);
    LoopDenotes(sem, t, view, scope, g);
    if Pruned(t.children, view) {
      RunEmpty(sem, scope, g);
      SilentFor(sem, false, t.children, p, view, scope, 0, g);
    } else {
      LinesAllBalanced(t.children, view);
      ForMeans(sem, t.children, p, view, scope, 0, g);
      hide Run, Lines, LinesAll, Balanced, ReadBlock, ForLines, ExecFor, DenoteFor, LoopParamsOf, Denote;
      LoopRuns(sem, t.content, body, scope, g);
    }
  }

  lemma LoopDenotes<G>(sem: Sem<G>, t: Tree, view: View, scope: Scope, g: G)
    requires t.kind == LoopNode
    ensures Denote(sem, false, t, view, scope, g)
            == DenoteFor(sem, false, t.children, LoopParamsOf(t.content), view, scope, 0, g)
  {}

  lemma {:induction false} StyleMeans<G>(sem: Sem<G>, t: Tree, view: View, scope: Scope, g: G)
    requires t.kind == StyleNode && ShapedBody(t.children)
    ensures Run(sem, Lines(t, view), scope, g) == Denote(sem, false, t, view, scope, g)
    decreases t, 0
  {
    hide Run, Quote, StyleOpen, StyleInfoOf, Denote, DenoteAll, Lines, LinesAll, LiteralValue, Balanced;
    RunEmpty(sem, scope, g);
    StyleLines(t, view);
    StyleDenotes(sem, t, view, scope, g);
    LinesAllMean(sem, t.children, CssInside, scope, g);
    if view == HtmlView && Inline(t) {
      LinesAllBalanced(t.children, CssInside);
      Wrapped(sem, StyleOpen(StyleInfoOf(t.content)), LinesAll(t.children, CssInside), scope, g);
    }
  }

  lemma StyleDenotes<G>(sem: Sem<G>, t: Tree, view: View, scope: Scope, g: G)
    requires t.kind == StyleNode
    ensures var (o, g') := DenoteAll(sem, false, t.children, CssInside, scope, g);
            Denote(sem, false, t, view, scope, g)
            == if view == HtmlView && Inline(t) then (StyleOpen(StyleInfoOf(t.content)) + o + "</style>", g')
               else if view == CssInside || (view == CssOutside && !Inline(t)) then (o, g')
               else ("", g)
  {
    hide StyleOpen, StyleInfoOf, DenoteAll;
  }

  /** CSS lines between the tags of a style element. */
  lemma Wrapped<G>(sem: Sem<G>, head: string, css: seq<Line>, scope: Scope, g: G)
    requires Balanced(css)
    ensures var (o, g') := Run(sem, css, scope, g);
            Run(sem, [StyleTag(Quote(head))] + css + [StyleTag(Quote("</style>"))], scope, g)
              == (head + o + "</style>", g')
  {
    hide Run, Balanced, Quote, ReadStmt, LiteralValue;
    QuotedValue(head);
    QuotedValue("</style>");
    var open, close := StyleTag(Quote(head)), StyleTag(Quote("</style>"));
    RunPrint(sem, open, scope, g);
    RunConcat(sem, [open], css, scope, g);
    var (o, g') := Run(sem, [open] + css, scope, g);
    RunPrint(sem, close, scope, g');
    RunConcat(sem, [open] + css, [close], scope, g);
  }

  lemma {:induction false} IfMeans<G>(sem: Sem<G>, t: Tree, view: View, scope: Scope, g: G)
    requires t.kind == IfNode && Shaped(t)
    ensures Run(sem, Lines(t, view), scope, g) == Denote(sem, false, t, view, scope, g)
    decreases t, 1
  {
    var cs, cond := t.children, ConditionOf(t.content);
    var thn, els := ThenPart(cs), ElsePart(cs);
    IfLines(t, view);
    BranchesMean(sem, t, view, scope, g);
    IfDenotes(sem, false, t, view, scope, g);
    if Pruned(thn, view) && Pruned(els, view) {
      RunEmpty(sem, scope, g);
      SilentAll(sem, false, thn, view, scope, g);
      hide Run, Lines, LinesAll, Balanced, ReadStmt, ReadBlock, Denote, DenoteAll, LastElse, Pruned;
    } else {
      hide Run, Exec, Lines, LinesAll, Balanced, ReadBlock, Denote, DenoteAll, ConditionOf, LastElse, Pruned;
      BranchRuns(sem, cond, LinesAll(thn, view), LinesAll(els, view), PrintsElse(t, view), scope, g);
    }
  }

  lemma BranchRuns<G>(sem: Sem<G>, cond: string, a: seq<Line>, b: seq<Line>, hasElse: bool, scope: Scope, g: G)
    requires Balanced(a) && Balanced(b)
    ensures Run(sem, [IfOpen(cond)] + a + (if hasElse then [ElseLine] + b else []) + [Close], scope, g)
            == if Holds(sem, cond, scope, g) then Exec(sem, ReadBlock(a).0, scope, g)
               else if hasElse then Exec(sem, ReadBlock(b).0, scope, g) else ("", g)
  {
    hide Run, Balanced, ReadStmt, ReadBlock;
    if hasElse {
      ReadIfElse(cond, a, b);
      RunOne(sem, [IfOpen(cond)] + a + ([ElseLine] + b) + [Close], scope, g);
    } else {
      ReadIf(cond, a);
      assert [IfOpen(cond)] + a + [] == [IfOpen(cond)] + a;
      RunOne(sem, [IfOpen(cond)] + a + [Close], scope, g);
      assert Exec(sem, [], scope, g) == ("", g);
    }
  }

  /** What the two branches of a `cif` mean; an else branch that is not printed means nothing. */
  lemma {:induction false} BranchesMean<G>(sem: Sem<G>, t: Tree, view: View, scope: Scope, g: G)
    requires t.kind == IfNode && Shaped(t)
    requires ShapedBody(ThenPart(t.children)) && ShapedBody(ElsePart(t.children))
    ensures Pruned(ElsePart(t.children), view)
            ==> DenoteAll(sem, false, ElsePart(t.children), view, scope, g) == ("", g)
    ensures var a, b := LinesAll(ThenPart(t.children), view), LinesAll(ElsePart(t.children), view);
            && Balanced(a) && Balanced(b)
            && Exec(sem, ReadBlock(a).0, scope, g) == DenoteAll(sem, false, ThenPart(t.children), view, scope, g)
            && Exec(sem, ReadBlock(b).0, scope, g) == DenoteAll(sem, false, ElsePart(t.children), view, scope, g)
            && (!PrintsElse(t, view) ==> DenoteAll(sem, false, ElsePart(t.children), view, scope, g) == ("", g))
            && Exec(sem, [], scope, g) == ("", g)
    decreases t, 0
  {
    var cs := t.children;
    LinesAllBalanced(ThenPart(cs), view);
    LinesAllMean(sem, ThenPart(cs), view, scope, g);
    if HasElse(cs) {
      LinesAllBalanced(cs[|cs| - 1].children, view);
      LinesAllMean(sem, cs[|cs| - 1].children, view, scope, g);
      assert LastElse(cs).Some?;
      if Pruned(ElsePart(cs), view) {
        SilentAll(sem, false, ElsePart(cs), view, scope, g);
      }
    } else {
      LinesAllStep([], view);
      LinesAllBalanced([], view);
      RunEmpty(sem, scope, g);
    }
    hide LinesAll, Balanced, DenoteAll, ReadBlock;
  }

  // ------------------------------------------------------------------------ loops

  /** The bound of a loop is the same after any iteration. */
  ghost predicate StableBound<G(!new)>(sem: Sem<G>, full: bool, body: seq<Tree>, p: LoopParams, view: View,
      scope: Scope) {
    forall i: nat, g: G {:trigger DenoteAll(sem, full, body, view, scope + [Binding(ItemOf(p), i)], g)} ::
      Bound(sem, p.count, scope, DenoteAll(sem, full, body, view, scope + [Binding(ItemOf(p), i)], g).1)
      == Bound(sem, p.count, scope, g)
  }

  /** Iterations i up to n, in order, with the item bound to each index in turn. */
  function Repeat<G>(sem: Sem<G>, full: bool, body: seq<Tree>, p: LoopParams, view: View, scope: Scope, i: nat,
      n: nat, g: G): Outcome<G>
    decreases n - i
  {
    if n <= i then ("", g)
    else
      var (o, g') := DenoteAll(sem, full, body, view, scope + [Binding(ItemOf(p), i)], g);
      var (o', g'') := Repeat(sem, full, body, p, view, scope, i + 1, n, g');
      (o + o', g'')
  }

  /** A loop whose C code leaves its bound alone repeats its body `count` times, although
      the generated loop evaluates the bound before every iteration. */
  lemma {:induction false} LoopRepeats<G(!new)>(sem: Sem<G>, full: bool, body: seq<Tree>, p: LoopParams, view: View,
      scope: Scope, i: nat, g: G)
    requires StableBound(sem, full, body, p, view, scope)
    ensures DenoteFor(sem, full, body, p, view, scope, i, g)
            == Repeat(sem, full, body, p, view, scope, i, Bound(sem, p.count, scope, g), g)
    decreases SIZE_T - i
  {
    hide DenoteAll, Bound;
    if i < Bound(sem, p.count, scope, g) {
      var g' := DenoteAll(sem, full, body, view, scope + [Binding(ItemOf(p), i)], g).1;
      LoopRepeats(sem, full, body, p, view, scope, i + 1, g');
    }
  }
}
