/** From a written template to its page: templates are built from parts whose tags and
    types are said in literals, and the page of the parts is what the program prints. */
module TemplatePages {
  import opened Text
  import opened Ast
  import opened Escape
  import opened Values
  import opened Tags
  import opened TagTheorems
  import LoopTagTheorems
  import opened Codegen
  import VariableTheorems
  import opened CSemantics
  import opened VariableOutput
  import opened CompilerCorrectness
  import opened CompilerTheorem
  import LexerTheorems
  import opened ParserTheorems
  import opened TemplateTexts
  import opened TemplateTheorem
  import opened TemplateRoundTrip

  // ----------------------------------------------------------------------- parts

  /** How a variable is shown. */
  datatype Type =
    | AsInt | AsLong | AsSize | AsFloat | AsDouble | AsNumber | AsBool | AsTime | AsString | AsHtml | AsIs

  datatype Part =
    | Words(text: string)
    | Block(code: string)
    | Shown(expr: string, shownAs: Type)
    | Loop(item: string, items: string, count: string, body: seq<Part>)
    | When(condition: string, thn: seq<Part>)
    | Either(condition: string, thn: seq<Part>, els: seq<Part>)
    | Sheet(attrs: seq<Attribute>, body: seq<Part>)

  function Suffix(shownAs: Type): string {
    match shownAs
    case AsInt => ":int"
    case AsLong => ":long"
    case AsSize => ":size_t"
    case AsFloat => ":float"
    case AsDouble => ":double"
    case AsNumber => ":number"
    case AsBool => ":bool"
    case AsTime => ":time"
    case AsString => ":string"
    case AsHtml => ":html"
    case AsIs => ""
  }

  function TreeFor(p: Part): Tree
    decreases p, 0
  {
    match p
    case Words(text) => Tree(HtmlNode, text, [])
    case Block(code) => Tree(CodeNode, code, [])
    case Shown(expr, shownAs) => Tree(VarNode, expr + Suffix(shownAs), [])
    case Loop(item, items, count, body) =>
      Tree(LoopNode, "<cloop var=\"" + item + "\" array=\"" + items + "\" count=\"" + count + "\">", TreesFor(p.body))
    case When(condition, thn) => Tree(IfNode, "<cif condition=\"" + condition + "\"" + ">", TreesFor(p.thn))
    case Either(condition, thn, els) =>
      Tree(IfNode, "<cif condition=\"" + condition + "\"" + ">",
           TreesFor(p.thn) + [Tree(ElseNode, "", TreesFor(p.els))])
    case Sheet(attrs, body) => Tree(StyleNode, "<cstyle" + WrittenAll(attrs) + ">", TreesFor(p.body))
  }

  function TreesFor(ps: seq<Part>): (cs: seq<Tree>)
    ensures |cs| == |ps| && (cs != [] ==> cs[|cs| - 1].kind != ElseNode)
    decreases ps, 0
  {
    if ps == [] then [] else [TreeFor(ps[0])] + TreesFor(ps[1..])
  }

  /** The text of a template. */
  function TemplateOf(ps: seq<Part>): string {
    Write(Tree(RootNode, "", TreesFor(ps)))
  }

  // -------------------------------------------------------------------- the page

  function TextOf<G>(sem: Sem<G>, shownAs: Type, expr: string, scope: Scope, g: G): string {
    match shownAs
    case AsInt => Decimal(sem.int32(expr, scope, g))
    case AsLong => Decimal(sem.int64(expr, scope, g))
    case AsSize => Decimal(sem.size(expr, scope, g))
    case AsFloat => Cut(Fixed(sem.float(expr, scope, g)), 31)
    case AsDouble => Cut(Fixed(sem.float(expr, scope, g)), 31)
    case AsNumber => Decimal(sem.int32(expr, scope, g))
    case AsBool => if sem.truth(expr, scope, g) then "true" else "false"
    case AsTime => Clock(sem.localtime(sem.time(expr, scope, g)))
    case _ =>
      match sem.text(expr, scope, g)
      case None => ""
      case Some(s) => s
  }

  /** What a part adds to the page (or, outside HtmlView, to the style sheet). */
  function Page<G>(sem: Sem<G>, p: Part, view: View, scope: Scope, g: G): Outcome<G>
    decreases p, 0
  {
    match p
    case Words(text) => (if view == CssOutside then "" else text, g)
    case Block(code) => if view == CssOutside || code == "" then ("", g) else sem.run(code, scope, g)
    case Shown(expr, shownAs) =>
      var text := TextOf(sem, shownAs, expr, scope, g);
      (if view == CssOutside then "" else if view == HtmlView && shownAs != AsHtml then Escaped(text) else text, g)
    case Loop(item, items, count, body) =>
      PageFor(sem, if items == "" then None else Some(Item(item, items)), count, p.body, view, scope, 0, g)
    case When(condition, thn) =>
      if condition != "" && sem.holds(condition, scope, g) then PageAll(sem, p.thn, view, scope, g) else ("", g)
    case Either(condition, thn, els) =>
      if condition != "" && sem.holds(condition, scope, g)
      then PageAll(sem, p.thn, view, scope, g) else PageAll(sem, p.els, view, scope, g)
    case Sheet(attrs, body) =>
      if view == HtmlView && AsksInline(attrs) then
        var (o, g') := PageAll(sem, p.body, CssInside, scope, g);
        ("<style" + WrittenAll(Others(attrs)) + ">" + o + "</style>", g')
      else if view == CssInside || (view == CssOutside && !AsksInline(attrs))
      then PageAll(sem, p.body, CssInside, scope, g)
      else ("", g)
  }

  function PageAll<G>(sem: Sem<G>, ps: seq<Part>, view: View, scope: Scope, g: G): Outcome<G>
    decreases ps, 0
  {
    if ps == [] then ("", g)
    else
      var (o, g') := Page(sem, ps[0], view, scope, g);
      var (o', g'') := PageAll(sem, ps[1..], view, scope, g');
      (o + o', g'')
  }

  /** The iterations from index i on; the count is a size_t. */
  function PageFor<G>(sem: Sem<G>, item: Option<Item>, count: string, body: seq<Part>, view: View, scope: Scope,
      i: nat, g: G): Outcome<G>
    decreases body, 0x1_0000_0000_0000_0000 - i
  {
    if i < sem.count(count, scope, g) % 0x1_0000_0000_0000_0000 then
      var (o, g') := PageAll(sem, body, view, scope + [Binding(item, i)], g);
      var (o', g'') := PageFor(sem, item, count, body, view, scope, i + 1, g');
      (o + o', g'')
    else ("", g)
  }

  // --------------------------------------------------------------- well-written parts

  const TYPES: seq<Type> := [AsInt, AsLong, AsSize, AsFloat, AsDouble, AsNumber, AsBool, AsTime, AsString, AsHtml]

  /** No other type is named anywhere in the text of the variable. */
  predicate OneType(expr: string, shownAs: Type) {
    forall k :: 0 <= k < 10 && TYPES[k] != shownAs ==> !Contains(expr + Suffix(shownAs), Suffix(TYPES[k]))
  }

  predicate Carried(condition: string) {
    && |condition| < 256 && (condition != "" ==> condition[|condition| - 1] != '\\')
    && forall k :: 0 <= k < |condition| && condition[k] == '"' ==> k > 0 && condition[k - 1] == '\\'
  }

  /** The attributes of a part can be read back from its tag, and fit their arrays. */
  ghost predicate Sound(p: Part)
    decreases p, 0
  {
    match p
    case Words(text) => true
    case Block(code) => true
    case Shown(expr, shownAs) => expr + Suffix(shownAs) != "" && OneType(expr, shownAs)
    case Loop(item, items, count, body) =>
      && LoopTagTheorems.LoopValue(item) && LoopTagTheorems.LoopValue(items) && LoopTagTheorems.LoopValue(count)
      && |item| < 64 && |items| < 256 && |count| < 256 && AllSound(p.body)
    case When(condition, thn) => Carried(condition) && AllSound(p.thn)
    case Either(condition, thn, els) => Carried(condition) && AllSound(p.thn) && AllSound(p.els)
    case Sheet(attrs, body) => AllClean(attrs) && |WrittenAll(attrs)| < 256 && AllSound(p.body)
  }

  ghost predicate AllSound(ps: seq<Part>)
    decreases ps, 0
  {
    ps != [] ==> Sound(ps[0]) && AllSound(ps[1..])
  }

  // ------------------------------------------------------------------- tags and types

  lemma ConditionIs(condition: string)
    requires Carried(condition)
    ensures ConditionOf("<cif condition=\"" + condition + "\"" + ">") == condition
  {
    hide ConditionOf;
    ConditionRoundTrip(condition, ">");
  }

  lemma StyleIs(attrs: seq<Attribute>)
    requires AllClean(attrs) && |WrittenAll(attrs)| < 256
    ensures var tag := "<cstyle" + WrittenAll(attrs) + ">";
            && StyleInfoOf(tag).inline == AsksInline(attrs)
            && StyleOpen(StyleInfoOf(tag)) == "<style" + WrittenAll(Others(attrs)) + ">"
  {
    hide WrittenAll, AllClean, StyleInfoOf, StyleOpen, Kept, Others;
    var tag := "<cstyle" + WrittenAll(attrs) + ">";
    assert tag + "" == tag;
    StyleTagRoundTrip(attrs, "");
    InlineOpening(attrs, "");
  }

  /** The format of a type, by its place in the list. */
  function FormatFor(shownAs: Type): Format {
    match shownAs
    case AsInt => FInt
    case AsLong => FLong
    case AsSize => FSize
    case AsFloat => FFloat
    case AsDouble => FFloat
    case AsNumber => FNumber
    case AsBool => FBool
    case AsTime => FTime
    case AsString => FString
    case AsHtml => FHtml
    case AsIs => FPlain
  }

  lemma TypesAreMarkers()
    ensures |MARKERS| == 10
    ensures forall k :: 0 <= k < 10 ==> MARKERS[k] == (Suffix(TYPES[k]), FormatFor(TYPES[k]))
    ensures forall j, k :: 0 <= j < k < 10 ==> TYPES[j] != TYPES[k]
  {}

  lemma TypeAt(shownAs: Type) returns (k: nat)
    requires shownAs != AsIs
    ensures k < 10 && TYPES[k] == shownAs
  {
    assert TYPES[0] == AsInt && TYPES[1] == AsLong && TYPES[2] == AsSize && TYPES[3] == AsFloat;
    assert TYPES[4] == AsDouble && TYPES[5] == AsNumber && TYPES[6] == AsBool;
    assert TYPES[7] == AsTime && TYPES[8] == AsString && TYPES[9] == AsHtml;
    k :| k < 10 && TYPES[k] == shownAs;
  }

  lemma FormIs(expr: string, shownAs: Type)
    requires OneType(expr, shownAs)
    ensures FormOf(expr + Suffix(shownAs)) == VarForm(FormatFor(shownAs), expr)
  {
    hide FormOf, Contains, EndsWith, Suffix, FormatFor;
    TypesAreMarkers();
    var text := expr + Suffix(shownAs);
    if shownAs == AsIs {
      VariableTheorems.FormByMarkers(text);
      assert forall k :: 0 <= k < 10 ==> MARKERS[k].0 == Suffix(TYPES[k]) && !Contains(text, Suffix(TYPES[k]));
      NoSuffix(expr);
    } else {
      var k := TypeAt(shownAs);
      VariableTheorems.FormattedByOwnTypeIff(expr, k);
      if MARKERS[k].0 == ":float" {
        DoubleInside(expr);
      }
    }
  }

  lemma NoSuffix(expr: string)
    ensures expr + Suffix(AsIs) == expr && FormatFor(AsIs) == FPlain
  {}

  lemma DoubleInside(expr: string)
    requires OneType(expr, AsFloat)
    ensures !EndsWith(expr, ":double")
  {
    assert TYPES[4] == AsDouble;
    EndStays(expr, ":double", ":float");
    hide Contains, EndsWith;
  }

  lemma EndStays(s: string, end: string, tail: string)
    requires end != ""
    ensures EndsWith(s, end) ==> Contains(s + tail, end)
  {
    if EndsWith(s, end) {
      var n := |s| - |end|;
      assert (s + tail)[n..n + |end|] == s[n..] == end;
      assert At(s + tail, n, end);
    }
  }

  lemma ValueIs<G>(sem: Sem<G>, expr: string, shownAs: Type, scope: Scope, g: G)
    ensures var v := VarValue(sem, VarForm(FormatFor(shownAs), expr), scope, g);
            TextOf(sem, shownAs, expr, scope, g) == if v.RealValue? then Cut(Rendered(v), 31) else Rendered(v)
  {
    hide Cut, Decimal, Fixed, Clock;
  }

  lemma ShownMeans<G>(sem: Sem<G>, expr: string, shownAs: Type, escape: bool, scope: Scope, g: G)
    requires OneType(expr, shownAs)
    ensures var text := TextOf(sem, shownAs, expr, scope, g);
            Meant(sem, false, FormOf(expr + Suffix(shownAs)), escape, scope, g)
            == if escape && shownAs != AsHtml then Escaped(text) else text
  {
    hide FormOf, Suffix, OneType, VarValue, Rendered, Cut, Escaped, TextOf;
    FormIs(expr, shownAs);
    ValueIs(sem, expr, shownAs, scope, g);
  }

  // ------------------------------------------------------------------------- meaning

  lemma LoopIs(item: string, items: string, count: string)
    requires LoopTagTheorems.LoopValue(item) && LoopTagTheorems.LoopValue(items)
    requires LoopTagTheorems.LoopValue(count)
    ensures var tag := "<cloop var=\"" + item + "\" array=\"" + items + "\" count=\"" + count + "\">";
            LoopParamsOf(tag) == LoopParams(item, items, count)
  {
    LoopTagTheorems.LoopTagRoundTrip(item, items, count);
  }

  lemma BranchesAre(thn: seq<Tree>, els: seq<Tree>)
    ensures var e := Tree(ElseNode, "", els);
            HasElse(thn + [e]) && ThenPart(thn + [e]) == thn && (thn + [e])[|thn + [e]| - 1] == e
  {}

  /** A part means its page. */
  lemma {:induction false} PartMeans<G>(sem: Sem<G>, p: Part, view: View, scope: Scope, g: G)
    requires Sound(p)
    ensures Denote(sem, false, TreeFor(p), view, scope, g) == Page(sem, p, view, scope, g)
    decreases p, 1
  {
    match p
    case Words(text) =>
    case Block(code) =>
    case Shown(expr, shownAs) =>
      hide Meant, FormOf, OneType, Suffix, TextOf, Escaped;
      ShownMeans(sem, expr, shownAs, view == HtmlView, scope, g);
    case Loop(item, items, count, body) => LoopMeans(sem, p, view, scope, g);
    case Sheet(attrs, body) => SheetMeans(sem, p, view, scope, g);
    case _ => ChoiceMeans(sem, p, view, scope, g);
  }

  lemma {:induction false} LoopMeans<G>(sem: Sem<G>, p: Part, view: View, scope: Scope, g: G)
    requires p.Loop? && Sound(p)
    ensures Denote(sem, false, TreeFor(p), view, scope, g) == Page(sem, p, view, scope, g)
    decreases p, 0
  {
    hide LoopParamsOf, LoopTagTheorems.LoopValue, DenoteFor, PageFor, AllSound, TreesFor;
    LoopIs(p.item, p.items, p.count);
    BodyRepeats(sem, p, view, scope, 0, g);
  }

  lemma {:induction false} ChoiceMeans<G>(sem: Sem<G>, p: Part, view: View, scope: Scope, g: G)
    requires (p.When? || p.Either?) && Sound(p)
    ensures Denote(sem, false, TreeFor(p), view, scope, g) == Page(sem, p, view, scope, g)
    decreases p, 0
  {
    hide ConditionOf, Carried, DenoteAll, PageAll, ThenPart, HasElse, AllSound, TreesFor;
    ConditionIs(p.condition);
    PartsMean(sem, p.thn, view, scope, g);
    if p.Either? {
      PartsMean(sem, p.els, view, scope, g);
      BranchesAre(TreesFor(p.thn), TreesFor(p.els));
    } else {
      NoBranch(TreesFor(p.thn));
    }
  }

  lemma NoBranch(thn: seq<Tree>)
    requires thn != [] ==> thn[|thn| - 1].kind != ElseNode
    ensures !HasElse(thn) && ThenPart(thn) == thn
  {}

  lemma {:induction false} SheetMeans<G>(sem: Sem<G>, p: Part, view: View, scope: Scope, g: G)
    requires p.Sheet? && Sound(p)
    ensures Denote(sem, false, TreeFor(p), view, scope, g) == Page(sem, p, view, scope, g)
    decreases p, 0
  {
    hide StyleInfoOf, StyleOpen, AllClean, AsksInline, WrittenAll, Others, DenoteAll, PageAll, AllSound, TreesFor;
    StyleIs(p.attrs);
    PartsMean(sem, p.body, CssInside, scope, g);
  }

  lemma {:induction false} BodyRepeats<G>(sem: Sem<G>, p: Part, view: View, scope: Scope, i: nat, g: G)
    requires p.Loop? && AllSound(p.body)
    ensures DenoteFor(sem, false, TreesFor(p.body), LoopParams(p.item, p.items, p.count), view, scope, i, g)
            == PageFor(sem, if p.items == "" then None else Some(Item(p.item, p.items)), p.count, p.body, view, scope,
                       i, g)
    decreases p.body, 3 + 0x1_0000_0000_0000_0000 - i
  {
    hide DenoteAll, PageAll, TreesFor, AllSound;
    var params := LoopParams(p.item, p.items, p.count);
    if i < Bound(sem, p.count, scope, g) {
      PartsMean(sem, p.body, view, scope + [Binding(ItemOf(params), i)], g);
      var g' := PageAll(sem, p.body, view, scope + [Binding(ItemOf(params), i)], g).1;
      BodyRepeats(sem, p, view, scope, i + 1, g');
    }
  }

  lemma {:induction false} PartsMean<G>(sem: Sem<G>, ps: seq<Part>, view: View, scope: Scope, g: G)
    requires AllSound(ps)
    ensures DenoteAll(sem, false, TreesFor(ps), view, scope, g) == PageAll(sem, ps, view, scope, g)
    decreases ps, 2
  {
    if ps != [] {
      PartMeans(sem, ps[0], view, scope, g);
      PartsMean(sem, ps[1..], view, scope, Page(sem, ps[0], view, scope, g).1);
      TreesStep(ps);
      hide Denote, Page, TreeFor, Sound, TreesFor;
    }
  }

  lemma TreesStep(ps: seq<Part>)
    requires ps != []
    ensures TreesFor(ps)[0] == TreeFor(ps[0]) && TreesFor(ps)[1..] == TreesFor(ps[1..])
  {
    hide TreeFor;
  }

  // --------------------------------------------------------------------- shape and fit

  lemma {:induction false} PartIsShaped(p: Part)
    requires Sound(p)
    ensures Shaped(TreeFor(p)) && AttributesFit(TreeFor(p)) && TreeFor(p).kind != RootNode
    decreases p, 1
  {
    hide LoopParamsOf, LoopTagTheorems.LoopValue, ShapedBody, AllAttributesFit, AllSound, TreesFor;
    hide AllClean, WrittenAll, Carried, ConditionOf, OneType, Suffix;
    match p
    case Loop(item, items, count, body) =>
      LoopIs(item, items, count);
      PartsAreShaped(p.body);
    case Sheet(attrs, body) =>
      PartsAreShaped(p.body);
    case When(condition, thn) => ChoiceIsShaped(p);
    case Either(condition, thn, els) => ChoiceIsShaped(p);
    case _ => NothingToFit();
  }

  lemma NothingToFit()
    ensures AllAttributesFit([])
  {}

  lemma {:induction false} ChoiceIsShaped(p: Part)
    requires (p.When? || p.Either?) && Sound(p)
    ensures Shaped(TreeFor(p)) && AttributesFit(TreeFor(p)) && TreeFor(p).kind != RootNode
    decreases p, 0
  {
    hide ConditionOf, ShapedBody, AllAttributesFit, AllSound, TreesFor;
    ConditionIs(p.condition);
    hide Carried;
    PartsAreShaped(p.thn);
    if p.Either? {
      PartsAreShaped(p.els);
      BranchesFit(TreesFor(p.thn), TreesFor(p.els));
    }
  }

  lemma {:induction false} BranchesFit(thn: seq<Tree>, els: seq<Tree>)
    requires AllAttributesFit(thn) && AllAttributesFit(els)
    ensures AllAttributesFit(thn + [Tree(ElseNode, "", els)])
    ensures var cs := thn + [Tree(ElseNode, "", els)];
            cs[..|cs| - 1] == thn && cs[|cs| - 1] == Tree(ElseNode, "", els)
    decreases thn
  {
    var e := Tree(ElseNode, "", els);
    if thn == [] {
      assert thn + [e] == [e] && [e][1..] == [];
    } else {
      hide AttributesFit;
      assert (thn + [e])[1..] == thn[1..] + [e];
      BranchesFit(thn[1..], els);
    }
  }

  lemma {:induction false} PartsAreShaped(ps: seq<Part>)
    requires AllSound(ps)
    ensures ShapedBody(TreesFor(ps)) && AllAttributesFit(TreesFor(ps))
    decreases ps, 2
  {
    if ps != [] {
      PartIsShaped(ps[0]);
      PartsAreShaped(ps[1..]);
      TreesStep(ps);
      hide TreeFor, Sound, TreesFor, Shaped, AttributesFit;
    }
  }

  // ------------------------------------------------------------------- the style sheet

  /** The part has a text, code or variable somewhere. */
  predicate Filled(p: Part)
    decreases p, 0
  {
    match p
    case Words(text) => text != ""
    case Block(code) => code != ""
    case Shown(expr, shownAs) => true
    case Loop(item, items, count, body) => AnyFilled(p.body)
    case When(condition, thn) => AnyFilled(p.thn)
    case Either(condition, thn, els) => AnyFilled(p.thn) || AnyFilled(p.els)
    case Sheet(attrs, body) => AnyFilled(p.body)
  }

  predicate AnyFilled(ps: seq<Part>)
    decreases ps, 0
  {
    ps != [] && (Filled(ps[0]) || AnyFilled(ps[1..]))
  }

  /** Somewhere in the part stands an external block that is not empty. */
  predicate HasSheet(p: Part)
    decreases p, 0
  {
    match p
    case Loop(item, items, count, body) => AnySheet(p.body)
    case When(condition, thn) => AnySheet(p.thn)
    case Either(condition, thn, els) => AnySheet(p.thn) || AnySheet(p.els)
    case Sheet(attrs, body) => (!AsksInline(attrs) && AnyFilled(p.body)) || AnySheet(p.body)
    case _ => false
  }

  predicate AnySheet(ps: seq<Part>)
    decreases ps, 0
  {
    ps != [] && (HasSheet(ps[0]) || AnySheet(ps[1..]))
  }

  lemma {:induction false} CssOfBranches(thn: seq<Tree>, els: seq<Tree>)
    ensures var e := Tree(ElseNode, "", els);
            && (AnyCss(thn + [e], true) <==> AnyCss(thn, true) || AnyCss(els, true))
            && (AnyExternal(thn + [e]) <==> AnyExternal(thn) || AnyExternal(els))
  {
    var e := Tree(ElseNode, "", els);
    if thn == [] {
      assert thn + [e] == [e] && [e][1..] == [];
      assert HasCss(e, true) == AnyCss(els, true) && HasExternal(e) == AnyExternal(els);
    } else {
      hide HasCss, HasExternal;
      assert (thn + [e])[0] == thn[0] && (thn + [e])[1..] == thn[1..] + [e];
      CssOfBranches(thn[1..], els);
    }
  }

  lemma {:induction false} SheetIsExternal(p: Part)
    requires Sound(p)
    ensures HasCss(TreeFor(p), true) <==> Filled(p)
    ensures HasExternal(TreeFor(p)) <==> HasSheet(p)
    decreases p, 1
  {
    hide AnyFilled, AnySheet, AnyCss, AnyExternal, TreesFor, AllSound, Carried, AsksInline, AllClean, WrittenAll;
    hide StyleInfoOf, OneType;
    match p
    case Loop(item, items, count, body) => SheetsAreExternal(p.body);
    case When(condition, thn) => SheetsAreExternal(p.thn);
    case Either(condition, thn, els) =>
      SheetsAreExternal(p.thn);
      SheetsAreExternal(p.els);
      CssOfBranches(TreesFor(p.thn), TreesFor(p.els));
    case Sheet(attrs, body) =>
      StyleIs(attrs);
      SheetsAreExternal(p.body);
    case _ => assert !AnyExternal([]) by { NothingExternal(); }
  }

  lemma NothingExternal()
    ensures !AnyExternal([]) && !AnyCss([], true)
  {}

  lemma {:induction false} SheetsAreExternal(ps: seq<Part>)
    requires AllSound(ps)
    ensures AnyCss(TreesFor(ps), true) <==> AnyFilled(ps)
    ensures AnyExternal(TreesFor(ps)) <==> AnySheet(ps)
    decreases ps, 2
  {
    if ps != [] {
      SheetIsExternal(ps[0]);
      SheetsAreExternal(ps[1..]);
      TreesStep(ps);
      hide TreeFor, Sound, TreesFor, HasCss, HasExternal, Filled, HasSheet;
    }
  }

  // --------------------------------------------------------------------- the theorem

  /** The program of a template prints the page of its parts; it has a style sheet exactly
      when an external block stands somewhere that is not empty, and prints it too. */
  lemma TemplatePrintsItsPage<G>(sem: Sem<G>, ps: seq<Part>, g: G)
    requires AllSound(ps) && Fine(Flatten(Tree(RootNode, "", TreesFor(ps))), Where(false, false), false)
    ensures var t := TreeOf(TemplateOf(ps));
            && InBounds(TemplateOf(ps))
            && Run(sem, Compile(t).html, [], g) == PageAll(sem, ps, HtmlView, [], g)
            && (Compile(t).css.Some? <==> AnySheet(ps))
            && (if AnySheet(ps)
                then Run(sem, Compile(t).css.value, [], g) == PageAll(sem, ps, CssOutside, [], g)
                else PageAll(sem, ps, CssOutside, [], g) == ("", g))
  {
    var root := Tree(RootNode, "", TreesFor(ps));
    PartsAreShaped(ps);
    SheetsAreExternal(ps);
    assert HasExternal(root) <==> AnyExternal(root.children);
    assert Compile(root).css.Some? <==> HasExternal(root);
    hide HasExternal, AnyExternal, AnySheet, AttributesFit, LexerTheorems.TokensFit, Write, Flatten, Fine, TreeOf;
    hide TreesFor, AllSound, Run, Compile, PageAll, DenoteAll;
    ReadingUndoesWriting(root);
    CompilerIsCorrect(sem, root, g);
    PartsMean(sem, ps, HtmlView, [], g);
    PartsMean(sem, ps, CssOutside, [], g);
  }
}
