/** Every leaf of a template is printed by exactly one of the two generated functions. */
module Partition {
  import opened Text
  import opened Ast
  import opened Literal
  import opened Tags
  import opened Codegen
  import opened CodegenTheorems
  import opened Parser
  import opened ParserTheorems

  /** Where a leaf stands, decided by its outermost enclosing `cstyle` alone. */
  datatype Place = PlainHtml | InlineStyle | ExternalStyle

  datatype PlacedLeaf = PlacedLeaf(leaf: Tree, place: Place)

  function PlaceUnder(style: Tree, place: Place): Place {
    if place != PlainHtml then place else if Inline(style) then InlineStyle else ExternalStyle
  }

  /** The non-empty leaves in order. */
  function Leaves(t: Tree, place: Place): seq<PlacedLeaf> {
    if IsLeaf(t.kind) then (if t.content != "" then [PlacedLeaf(t, place)] else [])
    else LeavesAll(t.children, if t.kind == StyleNode then PlaceUnder(t, place) else place)
  }

  function LeavesAll(cs: seq<Tree>, place: Place): seq<PlacedLeaf> {
    if cs == [] then [] else Leaves(cs[0], place) + LeavesAll(cs[1..], place)
  }

  /** The lines a leaf must become: variables are escaped outside style blocks only. */
  function LeafLines(x: PlacedLeaf): seq<Line> {
    match x.leaf.kind
    case HtmlNode => [OutRaw(Quote(x.leaf.content))]
    case CodeNode => [CodeLine(x.leaf.content)]
    case _ => VarLines(FormOf(x.leaf.content), x.place == PlainHtml)
  }

  /** The lines of the leaves that belong to the CSS function, or of all the others. */
  function Selected(xs: seq<PlacedLeaf>, css: bool): seq<Line> {
    if xs == [] then []
    else (if (xs[0].place == ExternalStyle) == css then Payload(LeafLines(xs[0])) else []) + Selected(xs[1..], css)
  }

  /** Neither the frame of a loop, a branch or a style element, nor a closing brace. */
  predicate PrintsLeaf(l: Line) {
    !(l.StyleTag? || l.ForOpen? || l.LetItem? || l.IfOpen? || l.ElseLine? || l.Close?)
  }

  /** The lines of a program that print leaves. */
  function Payload(ls: seq<Line>): seq<Line> {
    if ls == [] then []
    else (if PrintsLeaf(ls[0]) then [ls[0]] else []) + Payload(ls[1..])
  }

  lemma PayloadCons(l: Line, ls: seq<Line>)
    ensures Payload([l] + ls) == (if PrintsLeaf(l) then [l] else []) + Payload(ls)
    ensures Payload([]) == []
  {
    assert ([l] + ls)[1..] == ls;
  }

  lemma {:induction false} PayloadConcat(a: seq<Line>, b: seq<Line>)
    ensures Payload(a + b) == Payload(a) + Payload(b)
  {
    hide PrintsLeaf, Payload;
    if a == [] {
      PayloadCons(Close, []);
      assert a + b == b;
    } else {
      var tail := a[1..];
      assert a == [a[0]] + tail && a + b == [a[0]] + (tail + b);
      PayloadCons(a[0], tail);
      PayloadCons(a[0], tail + b);
      PayloadConcat(tail, b);
    }
  }

  lemma SelectedCons(x: PlacedLeaf, xs: seq<PlacedLeaf>, css: bool)
    ensures Selected([x] + xs, css)
            == (if (x.place == ExternalStyle) == css then Payload(LeafLines(x)) else []) + Selected(xs, css)
  {
    hide LeafLines, Payload;
    assert ([x] + xs)[1..] == xs;
  }

  lemma {:induction false} SelectedConcat(a: seq<PlacedLeaf>, b: seq<PlacedLeaf>, css: bool)
    ensures Selected(a + b, css) == Selected(a, css) + Selected(b, css)
  {
    hide LeafLines, Payload, Selected;
    if a == [] {
      SelectedNone(css);
      assert a + b == b;
    } else {
      var tail := a[1..];
      assert a == [a[0]] + tail && a + b == [a[0]] + (tail + b);
      SelectedCons(a[0], tail, css);
      SelectedCons(a[0], tail + b, css);
      SelectedConcat(tail, b, css);
    }
  }

  lemma SelectedNone(css: bool)
    ensures Selected([], css) == []
  {}

  lemma LeavesFirst(cs: seq<Tree>, place: Place)
    requires cs != []
    ensures LeavesAll(cs, place) == Leaves(cs[0], place) + LeavesAll(cs[1..], place)
  {
    hide Leaves;
  }

  lemma {:induction false} LeavesConcat(a: seq<Tree>, b: seq<Tree>, place: Place)
    ensures LeavesAll(a + b, place) == LeavesAll(a, place) + LeavesAll(b, place)
  {
    if a == [] {
      assert a + b == b;
    } else {
      hide Leaves;
      assert (a + b)[0] == a[0] && (a + b)[1..] == a[1..] + b;
      LeavesConcat(a[1..], b, place);
      hide LeavesAll;
      LeavesFirst(a, place);
      LeavesFirst(a + b, place);
    }
  }

  /** Inside a block the place of the block is the place of every leaf. */
  lemma {:induction false} PlaceIsFixed(t: Tree, place: Place)
    requires place != PlainHtml
    ensures Selected(Leaves(t, place), place == InlineStyle) == []
    decreases t, 0
  {
    if !IsLeaf(t.kind) {
      PlaceIsFixedAll(t.children, place);
    }
  }

  lemma {:induction false} PlaceIsFixedAll(cs: seq<Tree>, place: Place)
    requires place != PlainHtml
    ensures Selected(LeavesAll(cs, place), place == InlineStyle) == []
    decreases cs, 1
  {
    if cs != [] {
      PlaceIsFixed(cs[0], place);
      PlaceIsFixedAll(cs[1..], place);
      SelectedConcat(Leaves(cs[0], place), LeavesAll(cs[1..], place), place == InlineStyle);
    }
  }

  // ------------------------------------------------------------------ the CSS walk

  /** The leaves the CSS walk is responsible for: inside a block all of them, outside
      those of external blocks. */
  function Owned(xs: seq<PlacedLeaf>, place: Place): seq<Line> {
    Selected(xs, place != InlineStyle)
  }

  lemma {:induction false} CssPayload(t: Tree, place: Place)
    requires Shaped(t)
    ensures Payload(CssLines(t, place != PlainHtml)) == Owned(Leaves(t, place), place)
    decreases t, 1
  {
    if IsLeaf(t.kind) {
      LeafPayload(t, place);
    } else if t.kind == LoopNode {
      CssLoopPayload(t, place);
    } else if t.kind == IfNode {
      CssIfPayload(t, place);
    } else if t.kind == StyleNode {
      CssStylePayload(t, place);
    } else {
      CssPayloadAll(t.children, place);
    }
  }

  lemma LeafPayload(t: Tree, place: Place)
    requires IsLeaf(t.kind)
    ensures Payload(CssLines(t, place != PlainHtml)) == Owned(Leaves(t, place), place)
    ensures Payload(HtmlLines(t)) == Selected(Leaves(t, PlainHtml), false)
  {
    SingleLeaf(PlacedLeaf(t, place), place != InlineStyle);
    SingleLeaf(PlacedLeaf(t, PlainHtml), false);
    assert Payload([]) == [] && Selected([], true) == [] && Selected([], false) == [];
    hide FormOf, Quote, Payload, Selected, VarLines;
  }

  lemma SingleLine(l: Line)
    ensures Payload([l]) == if PrintsLeaf(l) then [l] else []
  {
    assert [l][1..] == [];
    assert Payload([]) == [];
  }

  lemma SingleLeaf(x: PlacedLeaf, css: bool)
    ensures Selected([x], css) == if (x.place == ExternalStyle) == css then Payload(LeafLines(x)) else []
  {
    hide LeafLines, Payload;
    assert [x][1..] == [];
    assert Selected([], css) == [];
  }

  lemma {:induction false} CssPayloadAll(cs: seq<Tree>, place: Place)
    requires ShapedBody(cs)
    ensures Payload(CssAll(cs, place != PlainHtml)) == Owned(LeavesAll(cs, place), place)
    decreases cs, 2
  {
    if cs != [] {
      CssPayload(cs[0], place);
      CssPayloadAll(cs[1..], place);
      hide CssLines, Leaves;
      PayloadConcat(CssLines(cs[0], place != PlainHtml), CssAll(cs[1..], place != PlainHtml));
      SelectedConcat(Leaves(cs[0], place), LeavesAll(cs[1..], place), place != InlineStyle);
    }
  }

  lemma {:induction false} CssStylePayload(t: Tree, place: Place)
    requires t.kind == StyleNode && ShapedBody(t.children)
    ensures Payload(CssLines(t, place != PlainHtml)) == Owned(Leaves(t, place), place)
    decreases t, 0
  {
    hide Inline;
    var under := PlaceUnder(t, place);
    CssPayloadAll(t.children, under);
    if Inline(t) && place == PlainHtml {
      PlaceIsFixedAll(t.children, InlineStyle);
    }
  }

  /** The bracket lines of a loop or a branch print no leaf. */
  lemma BlockPayload(open: seq<Line>, body: seq<Line>)
    requires Payload(open) == []
    ensures Payload(open + body + [Close]) == Payload(body)
  {
    PayloadConcat(open + body, [Close]);
    PayloadConcat(open, body);
    assert [Close][1..] == [];
  }

  lemma ForPayload(tag: string)
    ensures Payload(ForLines(tag)) == []
  {
    hide LoopParamsOf;
    var p := LoopParamsOf(tag);
    SingleLine(ForOpen(p.count));
    SingleLine(LetItem(p.item, p.items));
    PayloadConcat([ForOpen(p.count)], [LetItem(p.item, p.items)]);
    hide Payload;
    assert [ForOpen(p.count)] + [] == [ForOpen(p.count)];
  }

  lemma {:induction false} CssLoopPayload(t: Tree, place: Place)
    requires t.kind == LoopNode && ShapedBody(t.children)
    ensures Payload(CssLines(t, place != PlainHtml)) == Owned(Leaves(t, place), place)
    decreases t, 0
  {
    CssPayloadAll(t.children, place);
    CssAllIffAnyCss(t.children, place != PlainHtml);
    ForPayload(t.content);
    hide ForLines, CssAll, AnyCss, LeavesAll, Selected, Inline;
    BlockPayload(ForLines(t.content), CssAll(t.children, place != PlainHtml));
    assert Payload([]) == [];
  }

  lemma BranchPayload(cond: string, thn: seq<Line>, els: seq<Line>, hasElse: bool)
    ensures Payload([IfOpen(cond)] + thn + (if hasElse then [ElseLine] + els else []) + [Close])
            == Payload(thn) + if hasElse then Payload(els) else []
  {
    assert [IfOpen(cond)][1..] == [] && [ElseLine][1..] == [];
    PayloadConcat([ElseLine], els);
    var tail := if hasElse then [ElseLine] + els else [];
    PayloadConcat(thn, tail);
    assert [IfOpen(cond)] + thn + tail == [IfOpen(cond)] + (thn + tail);
    BlockPayload([IfOpen(cond)], thn + tail);
  }

  /** The leaves of a `cif`: those of the then branch, then those of the else branch. */
  lemma IfLeaves(t: Tree, place: Place, css: bool)
    requires t.kind == IfNode && LastElse(t.children) == Some(|t.children| - 1)
    ensures var n := |t.children| - 1;
            Selected(Leaves(t, place), css)
            == Selected(LeavesAll(t.children[..n], place), css)
              + Selected(LeavesAll(t.children[n].children, place), css)
  {
    var n := |t.children| - 1;
    var e := t.children[n];
    assert t.children == t.children[..n] + [e];
    LeavesConcat(t.children[..n], [e], place);
    assert LeavesAll([e], place) == Leaves(e, place) by {
      assert [e][1..] == [];
    }
    SelectedConcat(LeavesAll(t.children[..n], place), LeavesAll(e.children, place), css);
  }

  lemma {:induction false} CssIfPayload(t: Tree, place: Place)
    requires t.kind == IfNode && Shaped(t)
    ensures Payload(CssLines(t, place != PlainHtml)) == Owned(Leaves(t, place), place)
    decreases t, 0
  {
    hide CssAll, AnyCss, LeavesAll, Leaves, Selected, Payload, CssExcept, CssLines, ThenCss, ElseCss, LastElse, HasCss,
         ConditionOf, Shaped, ShapedBody;
    var inside, css := place != PlainHtml, place != InlineStyle;
    var cs, last := t.children, LastElse(t.children);
    var thn := if last.Some? then cs[..last.value] else cs;
    ShapedIf(t, inside);
    CssIfUnfolds(t, inside);
    IfParts(t, place);
    CssPayloadAll(thn, place);
    CssAllIffAnyCss(thn, inside);
    if last.Some? {
      var e := cs[last.value];
      CssPayloadAll(e.children, place);
      CssAllIffAnyCss(e.children, inside);
      IfLeaves(t, place, css);
      BranchPayload(ConditionOf(t.content), CssAll(thn, inside), CssAll(e.children, inside), ElseCss(cs, inside));
    } else {
      BranchPayload(ConditionOf(t.content), CssAll(thn, inside), [], false);
    }
  }

  lemma IfParts(t: Tree, place: Place)
    requires t.kind == IfNode
    ensures var cs, last, inside := t.children, LastElse(t.children), place != PlainHtml;
            && (last.None? ==> CssExcept(cs, last, inside) == CssAll(cs, inside) && !ElseCss(cs, inside))
            && (last.Some? ==> ElseCss(cs, inside) == AnyCss(cs[last.value].children, inside))
    ensures Leaves(t, place) == LeavesAll(t.children, place) && Payload([]) == []
  {
    hide AnyCss, CssAll, LeavesAll;
  }

  // ----------------------------------------------------------------- the HTML walk

  lemma {:induction false} HtmlThenIsAll(cs: seq<Tree>)
    requires ShapedBody(cs)
    ensures HtmlThen(cs) == HtmlAll(cs)
  {
    hide HtmlLines;
    if cs != [] {
      HtmlThenIsAll(cs[1..]);
    }
  }

  lemma {:induction false} HtmlThenConcat(a: seq<Tree>, e: Tree)
    requires e.kind == ElseNode
    ensures HtmlThen(a + [e]) == HtmlThen(a)
  {
    hide HtmlLines;
    if a != [] {
      assert (a + [e])[1..] == a[1..] + [e];
      HtmlThenConcat(a[1..], e);
    } else {
      assert [e][1..] == [];
      assert a + [e] == [e];
    }
  }

  lemma {:induction false} HtmlPayload(t: Tree)
    requires Shaped(t)
    ensures Payload(HtmlLines(t)) == Selected(Leaves(t, PlainHtml), false)
    decreases t, 1
  {
    if IsLeaf(t.kind) {
      LeafPayload(t, PlainHtml);
    } else if t.kind == LoopNode {
      HtmlPayloadAll(t.children);
      ForPayload(t.content);
      hide ForLines, HtmlAll, LeavesAll, Selected, Inline;
      BlockPayload(ForLines(t.content), HtmlAll(t.children));
    } else if t.kind == IfNode {
      HtmlIfPayload(t);
    } else if t.kind == StyleNode {
      HtmlStylePayload(t);
    } else {
      HtmlPayloadAll(t.children);
    }
  }

  lemma {:induction false} HtmlPayloadAll(cs: seq<Tree>)
    requires ShapedBody(cs)
    ensures Payload(HtmlAll(cs)) == Selected(LeavesAll(cs, PlainHtml), false)
    decreases cs, 2
  {
    if cs != [] {
      HtmlPayload(cs[0]);
      HtmlPayloadAll(cs[1..]);
      hide HtmlLines, Leaves;
      PayloadConcat(HtmlLines(cs[0]), HtmlAll(cs[1..]));
      SelectedConcat(Leaves(cs[0], PlainHtml), LeavesAll(cs[1..], PlainHtml), false);
    }
  }

  lemma HtmlStylePayload(t: Tree)
    requires t.kind == StyleNode && ShapedBody(t.children)
    ensures Payload(HtmlLines(t)) == Selected(Leaves(t, PlainHtml), false)
  {
    var open, close := StyleTag(Quote(StyleOpen(StyleInfoOf(t.content)))), StyleTag(Quote("</style>"));
    hide Quote, StyleOpen, StyleInfoOf;
    if Inline(t) {
      CssPayloadAll(t.children, InlineStyle);
      PayloadConcat([open] + CssAll(t.children, true), [close]);
      PayloadConcat([open], CssAll(t.children, true));
      assert [open][1..] == [] && [close][1..] == [];
    } else {
      PlaceIsFixedAll(t.children, ExternalStyle);
    }
  }

  lemma {:induction false} HtmlIfPayload(t: Tree)
    requires t.kind == IfNode && Shaped(t)
    ensures Payload(HtmlLines(t)) == Selected(Leaves(t, PlainHtml), false)
    decreases t, 0
  {
    hide HtmlAll, HtmlThen, HtmlLines, LeavesAll, Leaves, Selected, Payload, LastElse, ConditionOf, Shaped, ShapedBody;
    ShapedIf(t, false);
    HtmlIfUnfolds(t);
    IfParts(t, PlainHtml);
    var cs, last := t.children, LastElse(t.children);
    var thn := if last.Some? then cs[..last.value] else cs;
    HtmlThenIsAll(thn);
    HtmlPayloadAll(thn);
    if last.Some? {
      var e := cs[last.value];
      assert cs == thn + [e];
      HtmlThenConcat(thn, e);
      HtmlPayloadAll(e.children);
      IfLeaves(t, PlainHtml, false);
      BranchPayload(ConditionOf(t.content), HtmlAll(thn), HtmlAll(e.children), true);
    } else {
      BranchPayload(ConditionOf(t.content), HtmlAll(thn), [], false);
    }
  }

  // ------------------------------------------------------------------- the theorem

  /** The HTML function prints, once and in order, exactly the leaves whose outermost
      `cstyle` is not external; the CSS function prints, once and in order, exactly the
      others. Whether a variable is escaped depends on where it stands, and nothing else. */
  lemma LeavesArePartitioned(root: Tree)
    requires Shaped(root)
    ensures Payload(HtmlLines(root)) == Selected(Leaves(root, PlainHtml), false)
    ensures Payload(CssLines(root, false)) == Selected(Leaves(root, PlainHtml), true)
  {
    HtmlPayload(root);
    CssPayload(root, PlainHtml);
  }

  function NonEmpty(leaves: seq<Tree>): seq<Tree> {
    if leaves == [] then []
    else (if leaves[0].content != "" then [leaves[0]] else []) + NonEmpty(leaves[1..])
  }

  function Bare(xs: seq<PlacedLeaf>): seq<Tree> {
    if xs == [] then [] else [xs[0].leaf] + Bare(xs[1..])
  }

  lemma {:induction false} NonEmptyConcat(a: seq<Tree>, b: seq<Tree>)
    ensures NonEmpty(a + b) == NonEmpty(a) + NonEmpty(b)
  {
    if a == [] {
      assert a + b == b;
    } else {
      assert (a + b)[1..] == a[1..] + b;
      NonEmptyConcat(a[1..], b);
    }
  }

  lemma {:induction false} BareConcat(a: seq<PlacedLeaf>, b: seq<PlacedLeaf>)
    ensures Bare(a + b) == Bare(a) + Bare(b)
  {
    if a == [] {
      assert a + b == b;
    } else {
      assert (a + b)[1..] == a[1..] + b;
      BareConcat(a[1..], b);
    }
  }

  lemma {:induction false} LeavesAreFringe(t: Tree, place: Place)
    ensures Bare(Leaves(t, place)) == NonEmpty(Fringe(t))
    decreases t, 0
  {
    if IsLeaf(t.kind) {
      assert [t][1..] == [] && [PlacedLeaf(t, place)][1..] == [];
    } else {
      LeavesAllAreFringe(t.children, if t.kind == StyleNode then PlaceUnder(t, place) else place);
    }
  }

  lemma {:induction false} LeavesAllAreFringe(cs: seq<Tree>, place: Place)
    ensures Bare(LeavesAll(cs, place)) == NonEmpty(FringeAll(cs))
    decreases cs, 1
  {
    if cs != [] {
      LeavesAreFringe(cs[0], place);
      LeavesAllAreFringe(cs[1..], place);
      BareConcat(Leaves(cs[0], place), LeavesAll(cs[1..], place));
      NonEmptyConcat(Fringe(cs[0]), FringeAll(cs[1..]));
    }
  }
}
