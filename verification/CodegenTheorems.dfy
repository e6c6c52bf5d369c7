/** How the HTML walk and the CSS walk share one tree. */
module CodegenTheorems {
  import opened Text
  import opened Ast
  import opened Literal
  import opened Tags
  import opened TagTheorems
  import opened Codegen

  // --------------------------------------------------------- the cases of a `cif`

  lemma CssIfUnfolds(t: Tree, inside: bool)
    requires t.kind == IfNode
    ensures !ThenCss(t.children, inside) && !ElseCss(t.children, inside) ==>
              CssLines(t, inside) == [] && AfterCss(t, inside) == t
    ensures ThenCss(t.children, inside) || ElseCss(t.children, inside) ==>
              var last := LastElse(t.children);
              && AfterCss(t, inside) ==
                 t.(children := AfterCssExcept(t.children, last, inside, ElseCss(t.children, inside)))
              && CssLines(t, inside) == [IfOpen(ConditionOf(t.content))] + CssExcept(t.children, last, inside)
                   + (if ElseCss(t.children, inside)
                     then [ElseLine] + CssAll(t.children[last.value].children, inside) else [])
                   + [Close]
    ensures ElseCss(t.children, inside) ==> LastElse(t.children).Some?
  {}

  lemma HtmlIfUnfolds(t: Tree)
    requires t.kind == IfNode
    ensures var last := LastElse(t.children);
            && AfterHtml(t) == t.(children := AfterHtmlIf(t.children, last))
            && HtmlLines(t) == [IfOpen(ConditionOf(t.content))] + HtmlThen(t.children)
                 + (if last.Some? then [ElseLine] + HtmlAll(t.children[last.value].children) else []) + [Close]
  {}

  // ------------------------------------------------- the first walk does no damage

  lemma LastElseKinds(a: seq<Tree>, b: seq<Tree>)
    requires |a| == |b| && forall i :: 0 <= i < |a| ==> a[i].kind == b[i].kind
    ensures LastElse(a) == LastElse(b)
  {}

  /** Pointwise agreement of the CSS walk outside any block. */
  ghost predicate SameCss(a: seq<Tree>, b: seq<Tree>) {
    && |a| == |b|
    && (forall i {:trigger a[i]} {:trigger b[i]} :: 0 <= i < |a| ==>
          a[i].kind == b[i].kind && CssLines(a[i], false) == CssLines(b[i], false)
          && HasCss(a[i], false) == HasCss(b[i], false))
  }

  lemma {:induction false} SameCssLines(a: seq<Tree>, b: seq<Tree>)
    requires SameCss(a, b)
    ensures CssAll(a, false) == CssAll(b, false)
    ensures AnyCss(a, false) == AnyCss(b, false) && ThenCss(a, false) == ThenCss(b, false)
  {
    hide CssLines, HasCss;
    if a != [] {
      SameCssLines(a[1..], b[1..]);
    }
  }

  /** Cutting the variables that the HTML walk prints leaves the CSS walk's lines alone:
      the two walks never print the same variable. */
  lemma {:induction false} HtmlWalkSparesCss(t: Tree)
    ensures CssLines(AfterHtml(t), false) == CssLines(t, false)
    ensures HasCss(AfterHtml(t), false) == HasCss(t, false)
    decreases t
  {
    if t.kind == StyleNode || IsLeaf(t.kind) {
      LeafSparesCss(t);
    } else {
      hide CssLines, HasCss, AfterHtml;
      var cs := t.children;
      forall i | 0 <= i < |cs|
        ensures CssLines(AfterHtml(cs[i]), false) == CssLines(cs[i], false)
        ensures HasCss(AfterHtml(cs[i]), false) == HasCss(cs[i], false)
      {
        HtmlWalkSparesCss(cs[i]);
      }
      if t.kind == IfNode {
        IfSparesCss(t);
      } else {
        assert SameCss(AfterHtmlAll(cs), cs);
        BlockSparesCss(t);
      }
    }
  }

  lemma LeafSparesCss(t: Tree)
    requires t.kind == StyleNode || IsLeaf(t.kind)
    ensures CssLines(AfterHtml(t), false) == CssLines(t, false)
    ensures HasCss(AfterHtml(t), false) == HasCss(t, false)
  {
    hide CssAll, AnyCss, StyleInfoOf, FormOf;
  }

  lemma BlockSparesCss(t: Tree)
    requires t.kind == LoopNode || t.kind == ElseNode || t.kind == RootNode
    requires SameCss(AfterHtmlAll(t.children), t.children)
    ensures CssLines(AfterHtml(t), false) == CssLines(t, false)
    ensures HasCss(AfterHtml(t), false) == HasCss(t, false)
  {
    hide CssAll, AnyCss, AfterHtmlAll, SameCss;
    SameCssLines(AfterHtmlAll(t.children), t.children);
  }

  lemma IfPiecesSame(a: seq<Tree>, b: seq<Tree>)
    requires SameCss(a, b)
    ensures LastElse(a) == LastElse(b)
    ensures ThenCss(a, false) == ThenCss(b, false) && ElseCss(a, false) == ElseCss(b, false)
    ensures AnyCss(a, false) == AnyCss(b, false)
    ensures CssExcept(a, LastElse(a), false) == CssExcept(b, LastElse(b), false)
  {
    hide CssLines, HasCss, LastElse, SameCss, CssAll, AnyCss, ThenCss;
    SameKinds(a, b);
    LastElseKinds(a, b);
    SameCssLines(a, b);
    var e := LastElse(a);
    if e.Some? {
      SameSlices(a, b, e.value);
      SameCssLines(a[..e.value], b[..e.value]);
      SameCssLines(a[e.value + 1..], b[e.value + 1..]);
    }
  }

  lemma SameKinds(a: seq<Tree>, b: seq<Tree>)
    requires SameCss(a, b)
    ensures |a| == |b| && forall i :: 0 <= i < |a| ==> a[i].kind == b[i].kind
  {
    hide CssLines, HasCss;
  }

  lemma SameSlices(a: seq<Tree>, b: seq<Tree>, k: nat)
    requires SameCss(a, b) && k < |a|
    ensures k < |b| && HasCss(a[k], false) == HasCss(b[k], false)
    ensures SameCss(a[..k], b[..k]) && SameCss(a[k + 1..], b[k + 1..])
  {
    hide CssLines, HasCss;
  }

  /** The `cif` case, given the result for the children. */
  lemma IfSparesCss(t: Tree)
    requires t.kind == IfNode
    requires forall i {:trigger t.children[i]} :: 0 <= i < |t.children| ==>
               CssLines(AfterHtml(t.children[i]), false) == CssLines(t.children[i], false)
               && HasCss(AfterHtml(t.children[i]), false) == HasCss(t.children[i], false)
    ensures CssLines(AfterHtml(t), false) == CssLines(t, false)
    ensures HasCss(AfterHtml(t), false) == HasCss(t, false)
  {
    hide CssLines, HasCss, AfterHtml, LastElse, AnyCss, CssAll, SameCss, AfterHtmlIf, HtmlLines, HtmlThen, HtmlAll,
      ThenCss, ElseCss, CssExcept;
    var cs, e := t.children, LastElse(t.children);
    var after := AfterHtmlIf(cs, e);
    HtmlIfUnfolds(t);
    SameAfterIf(cs, e);
    SameKinds(after, cs);
    if e.Some? {
      SameAt(after, cs, e.value);
      ElseLines(after[e.value]);
      ElseLines(cs[e.value]);
    }
    IfPiecesSame(after, cs);
    IfFromPieces(t, after);
  }

  lemma SameAfterIf(cs: seq<Tree>, last: Option<nat>)
    requires forall i {:trigger cs[i]} :: 0 <= i < |cs| ==>
               CssLines(AfterHtml(cs[i]), false) == CssLines(cs[i], false)
                 && HasCss(AfterHtml(cs[i]), false) == HasCss(cs[i], false)
    ensures SameCss(AfterHtmlIf(cs, last), cs)
  {
    hide CssLines, HasCss, AfterHtml;
  }

  lemma SameAt(a: seq<Tree>, b: seq<Tree>, k: nat)
    requires SameCss(a, b) && k < |b|
    ensures k < |a| && a[k].kind == b[k].kind && CssLines(a[k], false) == CssLines(b[k], false)
  {
    hide CssLines, HasCss;
  }

  lemma ElseLines(e: Tree)
    requires e.kind == ElseNode
    ensures CssLines(e, false) == CssAll(e.children, false)
  {}

  lemma IfFromPieces(t: Tree, after: seq<Tree>)
    requires t.kind == IfNode
    requires LastElse(after) == LastElse(t.children)
    requires ThenCss(after, false) == ThenCss(t.children, false) && ElseCss(after, false) == ElseCss(t.children, false)
    requires AnyCss(after, false) == AnyCss(t.children, false)
    requires CssExcept(after, LastElse(after), false) == CssExcept(t.children, LastElse(t.children), false)
    requires LastElse(after).Some? ==>
               var k := LastElse(after).value;
               k < |t.children| && CssAll(after[k].children, false) == CssAll(t.children[k].children, false)
    ensures CssLines(t.(children := after), false) == CssLines(t, false)
    ensures HasCss(t.(children := after), false) == HasCss(t, false)
  {
    hide CssAll, AnyCss, ThenCss, CssExcept, LastElse, ConditionOf;
  }

  // ------------------------------------------------------------- pruning is exact

  lemma {:induction false} AnyCssSplit(cs: seq<Tree>, inside: bool)
    requires cs != []
    ensures AnyCss(cs, inside) <==> AnyCss(cs[..|cs| - 1], inside) || HasCss(cs[|cs| - 1], inside)
  {
    if |cs| > 1 {
      AnyCssSplit(cs[1..], inside);
      assert cs[1..][..|cs| - 2] == cs[..|cs| - 1][1..];
    }
  }

  lemma CssAllFirst(cs: seq<Tree>, inside: bool)
    requires cs != []
    ensures CssAll(cs, inside) == CssLines(cs[0], inside) + CssAll(cs[1..], inside)
  {
    hide CssLines;
  }

  lemma {:induction false} CssAllConcat(a: seq<Tree>, b: seq<Tree>, inside: bool)
    ensures CssAll(a + b, inside) == CssAll(a, inside) + CssAll(b, inside)
  {
    hide CssLines;
    if a == [] {
      assert a + b == b;
    } else {
      hide CssAll;
      assert (a + b)[0] == a[0] && (a + b)[1..] == a[1..] + b;
      CssAllFirst(a, inside);
      CssAllFirst(a + b, inside);
      CssAllConcat(a[1..], b, inside);
    }
  }

  lemma {:induction false} ThenCssOfBody(cs: seq<Tree>, inside: bool)
    requires ShapedBody(cs)
    ensures ThenCss(cs, inside) == AnyCss(cs, inside) && LastElse(cs) == None
  {
    if cs != [] {
      ThenCssOfBody(cs[1..], inside);
      ShapedBodyElements(cs, |cs| - 1);
      forall i | 0 <= i < |cs|
        ensures cs[i].kind != ElseNode
      {
        ShapedBodyElements(cs, i);
      }
    }
  }

  lemma {:induction false} ThenCssConcat(a: seq<Tree>, e: Tree, inside: bool)
    requires e.kind == ElseNode
    ensures ThenCss(a + [e], inside) == ThenCss(a, inside)
    ensures LastElse(a + [e]) == Some(|a|)
  {
    if a != [] {
      assert (a + [e])[1..] == a[1..] + [e];
      ThenCssConcat(a[1..], e, inside);
    } else {
      assert ([e])[1..] == [];
    }
  }

  /** What a shaped `cif` looks like to the CSS walk. */
  lemma ShapedIf(t: Tree, inside: bool)
    requires t.kind == IfNode && Shaped(t)
    ensures LastElse(t.children) == None ==>
              ShapedBody(t.children) && ThenCss(t.children, inside) == AnyCss(t.children, inside)
    ensures LastElse(t.children).Some? ==>
              var n := |t.children| - 1;
              LastElse(t.children) == Some(n) && ShapedBody(t.children[..n]) && ShapedBody(t.children[n].children)
              && ThenCss(t.children, inside) == AnyCss(t.children[..n], inside)
              && CssExcept(t.children, Some(n), inside) == CssAll(t.children[..n], inside)
  {
    var n := |t.children| - 1;
    if t.children != [] && t.children[n].kind == ElseNode {
      var thn := t.children[..n];
      assert t.children == thn + [t.children[n]];
      ThenCssConcat(thn, t.children[n], inside);
      ThenCssOfBody(thn, inside);
      assert t.children[n + 1..] == [];
      assert CssAll(thn, inside) + CssAll([], inside) == CssAll(thn, inside);
    } else {
      ThenCssOfBody(t.children, inside);
    }
  }

  /** On parsed trees the CSS walk prints something exactly when the predicate that
      prunes it says so. */
  lemma {:induction false} CssLinesIffHasCss(t: Tree, inside: bool)
    requires Shaped(t)
    ensures CssLines(t, inside) != [] <==> HasCss(t, inside)
    decreases t, 0
  {
    hide CssLines, HasCss, CssAll, AnyCss, ThenCss, ElseCss, CssExcept, LastElse, Shaped, ShapedBody, ConditionOf,
      Quote, FormOf;
    if t.kind == IfNode {
      IfHasCss(t, inside);
    } else {
      BodyHasCss(t, inside);
      if t.kind == StyleNode {
        CssAllIffAnyCss(t.children, true);
      } else if !IsLeaf(t.kind) {
        CssAllIffAnyCss(t.children, inside);
      }
    }
  }

  lemma ElseCssIs(cs: seq<Tree>, inside: bool)
    ensures ElseCss(cs, inside) <==> LastElse(cs).Some? && HasCss(cs[LastElse(cs).value], inside)
  {
    hide HasCss, LastElse;
  }

  lemma IfHasCss(t: Tree, inside: bool)
    requires t.kind == IfNode && Shaped(t)
    ensures CssLines(t, inside) != [] <==> HasCss(t, inside)
  {
    hide CssAll, AnyCss, ThenCss, ElseCss, CssExcept, ConditionOf, CssLines, LastElse, Shaped, ShapedBody;
    ShapedIf(t, inside);
    CssIfUnfolds(t, inside);
    ElseCssIs(t.children, inside);
    if LastElse(t.children).Some? {
      AnyCssSplit(t.children, inside);
    }
  }

  lemma BodyHasCss(t: Tree, inside: bool)
    requires t.kind != IfNode && Shaped(t)
    ensures IsLeaf(t.kind) ==> (CssLines(t, inside) != [] <==> HasCss(t, inside))
    ensures !IsLeaf(t.kind) ==> ShapedBody(t.children)
    ensures t.kind == StyleNode ==>
              && (CssLines(t, inside) != [] <==> (Inline(t) ==> inside) && CssAll(t.children, true) != [])
              && (HasCss(t, inside) <==> (Inline(t) ==> inside) && AnyCss(t.children, true))
    ensures t.kind != StyleNode && !IsLeaf(t.kind) ==>
              && (CssLines(t, inside) != []
                 <==> if t.kind == LoopNode then AnyCss(t.children, inside) else CssAll(t.children, inside) != [])
              && (HasCss(t, inside) <==> AnyCss(t.children, inside))
  {
    hide CssAll, AnyCss, ConditionOf, Quote, FormOf, Inline, ForLines;
  }

  lemma {:induction false} CssAllIffAnyCss(cs: seq<Tree>, inside: bool)
    requires ShapedBody(cs)
    ensures CssAll(cs, inside) != [] <==> AnyCss(cs, inside)
    decreases cs, 1
  {
    if cs != [] {
      CssLinesIffHasCss(cs[0], inside);
      CssAllIffAnyCss(cs[1..], inside);
    }
  }

  // -------------------------------------------------------------------- the gate

  /** An external block with content that no inline block encloses. */
  predicate HasReachableExternal(t: Tree) {
    if t.kind == StyleNode then !Inline(t) && AnyCss(t.children, true)
    else !IsLeaf(t.kind) && AnyReachableExternal(t.children)
  }

  predicate AnyReachableExternal(cs: seq<Tree>) {
    cs != [] && (HasReachableExternal(cs[0]) || AnyReachableExternal(cs[1..]))
  }

  lemma {:induction false} ReachableIsCss(t: Tree)
    ensures HasReachableExternal(t) <==> HasCss(t, false)
    decreases t, 0
  {
    if t.kind != StyleNode && !IsLeaf(t.kind) {
      AnyReachableIsCss(t.children);
    }
  }

  lemma {:induction false} AnyReachableIsCss(cs: seq<Tree>)
    ensures AnyReachableExternal(cs) <==> AnyCss(cs, false)
    decreases cs, 1
  {
    if cs != [] {
      ReachableIsCss(cs[0]);
      AnyReachableIsCss(cs[1..]);
    }
  }

  lemma {:induction false} ReachableOpensGate(t: Tree)
    requires HasReachableExternal(t)
    ensures HasExternal(t)
    decreases t, 0
  {
    if t.kind != StyleNode {
      AnyReachableOpensGate(t.children);
    }
  }

  lemma {:induction false} AnyReachableOpensGate(cs: seq<Tree>)
    requires AnyReachableExternal(cs)
    ensures AnyExternal(cs)
    decreases cs, 1
  {
    if HasReachableExternal(cs[0]) {
      ReachableOpensGate(cs[0]);
    } else {
      AnyReachableOpensGate(cs[1..]);
    }
  }

  /** The gate loses nothing: whenever the CSS walk has something to print, the CSS
      function is generated; and it prints something exactly when an external block
      with content lies outside every inline block. */
  lemma GateLosesNothing(root: Tree)
    requires Shaped(root) && AttributesFit(root)
    ensures CssLines(root, false) != [] ==> Compile(root).css == Some(CssLines(root, false))
    ensures CssLines(root, false) != [] <==> HasReachableExternal(root)
  {
    CssLinesIffHasCss(root, false);
    ReachableIsCss(root);
    if HasReachableExternal(root) {
      ReachableOpensGate(root);
    }
  }

  /** Exactly when a CSS function is generated that prints nothing: all external blocks
      with content lie inside inline blocks. */
  lemma EmptyCssFunctionIff(root: Tree)
    requires Shaped(root) && AttributesFit(root)
    ensures Compile(root).css == Some([]) <==> HasExternal(root) && !HasReachableExternal(root)
  {
    GateLosesNothing(root);
  }

  /** So the gate does not only open when there is something to print. */
  lemma GateOpensForNothing(text: string)
    requires text != ""
    ensures var inner := Tree(StyleNode, "<cstyle>", [Tree(HtmlNode, text, [])]);
            var root := Tree(RootNode, "", [Tree(StyleNode, "<cstyle setinline>", [inner])]);
            Shaped(root) && AttributesFit(root) && Compile(root).css == Some([])
  {
    var leaf := Tree(HtmlNode, text, []);
    var inner := Tree(StyleNode, "<cstyle>", [leaf]);
    var outer := Tree(StyleNode, "<cstyle setinline>", [inner]);
    var root := Tree(RootNode, "", [outer]);
    PlainTag();
    InlineTag();
    hide StyleInfoOf;
    Singleton(leaf);
    Singleton(inner);
    Singleton(outer);
    EmptyCssFunctionIff(root);
    hide CssLines;
  }

  lemma Singleton(t: Tree)
    ensures ShapedBody([t]) <==> !t.kind.RootNode? && Shaped(t)
    ensures AnyCss([t], true) <==> HasCss(t, true)
    ensures AnyExternal([t]) <==> HasExternal(t)
    ensures AnyReachableExternal([t]) <==> HasReachableExternal(t)
    ensures AllAttributesFit([t]) <==> AttributesFit(t)
  {
    assert [t][1..] == [];
    assert !AnyCss([], true) && !AnyExternal([]) && !AnyReachableExternal([]) && ShapedBody([]);
    hide Shaped, HasCss, HasExternal, HasReachableExternal, AttributesFit;
  }

  lemma PlainTag()
    ensures !StyleInfoOf("<cstyle>").inline
  {
    StyleTagRoundTrip([], "");
    hide StyleInfoOf;
    assert "<cstyle" + "" + ">" + "" == "<cstyle>";
  }

  lemma InlineTag()
    ensures StyleInfoOf("<cstyle setinline>").inline
  {
    hide WrittenAll, AllClean, AsksInline, TagTheorems.Kept, StyleInfoOf;
    InlineAttribute();
    StyleTagRoundTrip([Flag("setinline")], "");
    assert "<cstyle" + " setinline" + ">" + "" == "<cstyle setinline>";
  }

  lemma InlineAttribute()
    ensures var attrs := [Flag("setinline")];
            AllClean(attrs) && WrittenAll(attrs) == " setinline" && |WrittenAll(attrs)| == 10 && AsksInline(attrs)
  {
    assert [Flag("setinline")][1..] == [] && WrittenAll([]) == "";
  }
}
