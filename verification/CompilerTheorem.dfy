/** The generated functions print what the template means, and when they print it whole. */
module CompilerTheorem {
  import opened Text
  import opened Ast
  import opened Escape
  import opened Values
  import opened Tags
  import opened Codegen
  import opened CodegenTheorems
  import opened CSemantics
  import opened VariableOutput
  import opened CompilerCorrectness

  // ---------------------------------------------------------- which numbers are shown

  /** Every real number that the template shows, on its way through branches and loops,
      fits its array. */
  predicate Whole<G>(sem: Sem<G>, t: Tree, view: View, scope: Scope, g: G)
    decreases t, 0
  {
    match t.kind
    case HtmlNode => true
    case CodeNode => true
    case VarNode =>
      view == CssOutside || t.content == ""
      || var v := VarValue(sem, FormOf(t.content), scope, g); v.RealValue? ==> FitsBuffer(v.x)
    case LoopNode => WholeFor(sem, t.children, LoopParamsOf(t.content), view, scope, 0, g)
    case IfNode =>
      if Holds(sem, ConditionOf(t.content), scope, g)
      then WholeAll(sem, ThenPart(t.children), view, scope, g)
      else HasElse(t.children) ==> WholeAll(sem, t.children[|t.children| - 1].children, view, scope, g)
    case StyleNode =>
      (view == CssInside || (view == HtmlView) == Inline(t)) ==> WholeAll(sem, t.children, CssInside, scope, g)
    case _ => WholeAll(sem, t.children, view, scope, g)
  }

  predicate WholeAll<G>(sem: Sem<G>, cs: seq<Tree>, view: View, scope: Scope, g: G)
    decreases cs, 0
  {
    cs != [] ==>
      Whole(sem, cs[0], view, scope, g)
        && WholeAll(sem, cs[1..], view, scope, Denote(sem, true, cs[0], view, scope, g).1)
  }

  predicate WholeFor<G>(sem: Sem<G>, body: seq<Tree>, p: LoopParams, view: View, scope: Scope, i: nat, g: G)
    decreases body, SIZE_T - i
  {
    i < Bound(sem, p.count, scope, g) ==>
      var inner := scope + [Binding(ItemOf(p), i)];
      WholeAll(sem, body, view, inner, g)
        && WholeFor(sem, body, p, view, scope, i + 1, DenoteAll(sem, true, body, view, inner, g).1)
  }

  // -------------------------------------------------------------- what the cut costs

  /** Two outcomes of which the first may have lost characters, and has not when `whole`. */
  predicate Shortened<G(==)>(a: Outcome<G>, b: Outcome<G>, whole: bool) {
    a.1 == b.1 && |a.0| <= |b.0| && (whole <==> a.0 == b.0) && (whole <==> |a.0| == |b.0|)
  }

  lemma ShortenedInTurn<G>(a: Outcome<G>, b: Outcome<G>, p: bool, c: Outcome<G>, d: Outcome<G>, q: bool)
    requires Shortened(a, b, p) && Shortened(c, d, q)
    ensures Shortened((a.0 + c.0, c.1), (b.0 + d.0, d.1), p && q)
  {}

  lemma {:induction false} ShortenedIffCut<G>(sem: Sem<G>, t: Tree, view: View, scope: Scope, g: G)
    ensures Shortened(Denote(sem, false, t, view, scope, g), Denote(sem, true, t, view, scope, g),
            Whole(sem, t, view, scope, g))
    decreases t, 0
  {
    match t.kind
    case HtmlNode =>
    case CodeNode =>
    case VarNode =>
      PrintedWholeIff(sem, FormOf(t.content), view == HtmlView, scope, g);
      hide Meant, FormOf, VarValue, FitsBuffer;
    case LoopNode => ShortenedIffCutFor(sem, t.children, LoopParamsOf(t.content), view, scope, 0, g);
    case IfNode =>
      ShortenedIffCutAll(sem, ThenPart(t.children), view, scope, g);
      if HasElse(t.children) {
        ShortenedIffCutAll(sem, t.children[|t.children| - 1].children, view, scope, g);
      }
      hide DenoteAll, WholeAll, ConditionOf;
    case StyleNode =>
      ShortenedIffCutAll(sem, t.children, CssInside, scope, g);
      hide DenoteAll, WholeAll, StyleInfoOf, StyleOpen;
      StyleShortened(sem, t, view, scope, g);
    case _ => ShortenedIffCutAll(sem, t.children, view, scope, g);
  }

  lemma StyleShortened<G>(sem: Sem<G>, t: Tree, view: View, scope: Scope, g: G)
    requires t.kind == StyleNode
    requires Shortened(DenoteAll(sem, false, t.children, CssInside, scope, g),
             DenoteAll(sem, true, t.children, CssInside, scope, g),
               WholeAll(sem, t.children, CssInside, scope, g))
    ensures Shortened(Denote(sem, false, t, view, scope, g), Denote(sem, true, t, view, scope, g),
            Whole(sem, t, view, scope, g))
  {
    hide DenoteAll, WholeAll, StyleInfoOf, StyleOpen;
    if view == HtmlView && Inline(t) {
      var head := StyleOpen(StyleInfoOf(t.content));
      var a, b := DenoteAll(sem, false, t.children, CssInside, scope, g),
        DenoteAll(sem, true, t.children, CssInside, scope, g);
      var p := WholeAll(sem, t.children, CssInside, scope, g);
      ShortenedInTurn((head, g), (head, g), true, a, b, p);
      ShortenedInTurn((head + a.0, a.1), (head + b.0, b.1), p, ("</style>", a.1), ("</style>", b.1), true);
    }
  }

  lemma {:induction false} ShortenedIffCutAll<G>(sem: Sem<G>, cs: seq<Tree>, view: View, scope: Scope, g: G)
    ensures Shortened(DenoteAll(sem, false, cs, view, scope, g), DenoteAll(sem, true, cs, view, scope, g),
            WholeAll(sem, cs, view, scope, g))
    decreases cs, 0
  {
    if cs != [] {
      var a, b := Denote(sem, false, cs[0], view, scope, g), Denote(sem, true, cs[0], view, scope, g);
      ShortenedIffCut(sem, cs[0], view, scope, g);
      ShortenedIffCutAll(sem, cs[1..], view, scope, b.1);
      hide Denote, Whole;
      ShortenedInTurn(a, b, Whole(sem, cs[0], view, scope, g), DenoteAll(sem, false, cs[1..], view, scope, b.1),
        DenoteAll(sem, true, cs[1..], view, scope, b.1), WholeAll(sem, cs[1..], view, scope, b.1));
    }
  }

  lemma {:induction false} ShortenedIffCutFor<G>(sem: Sem<G>, body: seq<Tree>, p: LoopParams, view: View,
      scope: Scope, i: nat, g: G)
    ensures Shortened(DenoteFor(sem, false, body, p, view, scope, i, g),
            DenoteFor(sem, true, body, p, view, scope, i, g),
              WholeFor(sem, body, p, view, scope, i, g))
    decreases body, SIZE_T - i
  {
    if i < Bound(sem, p.count, scope, g) {
      var inner := scope + [Binding(ItemOf(p), i)];
      var a, b := DenoteAll(sem, false, body, view, inner, g), DenoteAll(sem, true, body, view, inner, g);
      ShortenedIffCutAll(sem, body, view, inner, g);
      ShortenedIffCutFor(sem, body, p, view, scope, i + 1, b.1);
      hide DenoteAll, WholeAll;
      ShortenedInTurn(a, b, WholeAll(sem, body, view, inner, g),
        DenoteFor(sem, false, body, p, view, scope, i + 1, b.1),
        DenoteFor(sem, true, body, p, view, scope, i + 1, b.1), WholeFor(sem, body, p, view, scope, i + 1, b.1));
    }
  }

  // ------------------------------------------------------------------ correctness

  /** Compiler correctness. For every parsed template whose attributes fit, running the HTML function prints
      the template's meaning; and when a CSS function is generated, running it prints
      the meaning of the external style blocks. */
  lemma CompilerIsCorrect<G>(sem: Sem<G>, root: Tree, g: G)
    requires Shaped(root) && AttributesFit(root)
    ensures Balanced(Compile(root).html)
    ensures Run(sem, Compile(root).html, [], g) == Denote(sem, false, root, HtmlView, [], g)
    ensures Compile(root).css.Some? ==>
              Balanced(Compile(root).css.value)
              && Run(sem, Compile(root).css.value, [], g) == Denote(sem, false, root, CssOutside, [], g)
    ensures Compile(root).css.None? ==> Denote(sem, false, root, CssOutside, [], g) == ("", g)
  {
    LinesBalanced(root, HtmlView);
    LinesMean(sem, root, HtmlView, [], g);
    LinesBalanced(root, CssOutside);
    LinesMean(sem, root, CssOutside, [], g);
    hide Balanced, Run, Denote, HtmlLines, CssLines, AttributesFit;
    if !HasExternal(root) {
      GateLosesNothing(root);
      CssLinesIffHasCss(root, false);
      SilentWithoutCss(sem, false, root, CssOutside, [], g);
    }
  }

  /** The functions print the whole meaning, with nothing cut, exactly when every real
      number they come to show has at most 24 digits before its point (23 and a sign). */
  lemma PrintedWholeIffNumbersFit<G>(sem: Sem<G>, root: Tree, g: G)
    requires Shaped(root) && AttributesFit(root)
    ensures Run(sem, Compile(root).html, [], g) == Denote(sem, true, root, HtmlView, [], g)
            <==> Whole(sem, root, HtmlView, [], g)
    ensures Compile(root).css.Some? ==>
              (Run(sem, Compile(root).css.value, [], g) == Denote(sem, true, root, CssOutside, [], g)
               <==> Whole(sem, root, CssOutside, [], g))
  {
    CompilerIsCorrect(sem, root, g);
    hide Run, Denote, Whole, AttributesFit;
    ShortenedIffCut(sem, root, HtmlView, [], g);
    ShortenedIffCut(sem, root, CssOutside, [], g);
  }
}
