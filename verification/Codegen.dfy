/** The code generators. A generated C function is the sequence of lines that the
    walks print; comments in the generated code are left out. The spec functions say
    which lines a tree yields and what the walk leaves behind in the variable nodes,
    whose text it cuts in place. */
module Codegen {
  import opened Text
  import opened Ast
  import opened Literal
  import opened Tags

  datatype Format =
    | FInt | FLong | FSize | FFloat | FNumber | FBool | FTime | FString | FHtml | FPlain

  /** What a variable prints: the expression, and how its type suffix formats it. */
  datatype VarForm = VarForm(format: Format, expr: string)

  datatype Conversion = PercentD | PercentLd | PercentZu | PercentF

  datatype Line =
    | OutRaw(lit: string)                       // cweb_output_raw("...");
    | StyleTag(lit: string)                     // the same, for the wrapper of an inline block
    | OutText(expr: string, escape: bool)       // cweb_output_html(expr);   or   cweb_output_raw(expr);
    | OutTruth(expr: string, escape: bool)      // cweb_output_html(expr ? "true" : "false");
    | OutIfSet(expr: string, escape: bool)      // if (expr) cweb_output_html(expr);
    | Open                                      // {
    | Declare(size: nat)                        // char temp_str[size];
    | Store(conversion: Conversion, expr: string) // snprintf(temp_str, sizeof(temp_str), "%d", expr);
    | BreakDown(expr: string)                   // struct tm *tm_info = localtime(&expr);
    | StoreTime                                 // strftime(time_str, sizeof(time_str), "%Y-%m-%d %H:%M:%S", tm_info);
    | OutStored(escape: bool)                   // cweb_output_html(temp_str);
    | CodeLine(text: string)                    // the text of a <% %> block
    | ForOpen(count: string)                    // for (size_t i = 0; i < count; i++) {
    | LetItem(name: string, items: string)      // const char *name = array[i];
    | IfOpen(condition: string)                 // if (condition) {   or   if (false) {
    | ElseLine                                  // } else {
    | Close                                     // }

  // ------------------------------------------------------------------- variables

  /** remove_type_suffix */
  function RemoveSuffix(s: string, suffix: string): string {
    if EndsWith(s, suffix) then s[..|s| - |suffix|] else s
  }

  /** The type markers in the order generate_variable_output looks for them. */
  const MARKERS: seq<(string, Format)> := [
    (":int", FInt), (":long", FLong), (":size_t", FSize), (":float", FFloat), (":double", FFloat),
    (":number", FNumber), (":bool", FBool), (":time", FTime), (":string", FString), (":html", FHtml)]

  /** generate_variable_output looks for each marker anywhere in the text, and cuts it
      only from the end. */
  function FormOf(text: string): VarForm {
    if Contains(text, ":int") then VarForm(FInt, RemoveSuffix(text, ":int"))
    else if Contains(text, ":long") then VarForm(FLong, RemoveSuffix(text, ":long"))
    else if Contains(text, ":size_t") then VarForm(FSize, RemoveSuffix(text, ":size_t"))
    else if Contains(text, ":float") || Contains(text, ":double") then
      VarForm(FFloat, RemoveSuffix(RemoveSuffix(text, ":float"), ":double"))
    else if Contains(text, ":number") then VarForm(FNumber, RemoveSuffix(text, ":number"))
    else if Contains(text, ":bool") then VarForm(FBool, RemoveSuffix(text, ":bool"))
    else if Contains(text, ":time") then VarForm(FTime, RemoveSuffix(text, ":time"))
    else if Contains(text, ":string") then VarForm(FString, RemoveSuffix(text, ":string"))
    else if Contains(text, ":html") then VarForm(FHtml, RemoveSuffix(text, ":html"))
    else VarForm(FPlain, text)
  }

  const TEMP_SIZE: nat := 32
  const TIME_SIZE: nat := 64

  function StoredLines(conversion: Conversion, expr: string, escape: bool): seq<Line> {
    [Open, Declare(TEMP_SIZE), Store(conversion, expr), OutStored(escape), Close]
  }

  /** The lines generate_variable_output prints. */
  function VarLines(form: VarForm, escape: bool): seq<Line> {
    match form.format
    case FInt => StoredLines(PercentD, form.expr, escape)
    case FLong => StoredLines(PercentLd, form.expr, escape)
    case FSize => StoredLines(PercentZu, form.expr, escape)
    case FFloat => StoredLines(PercentF, form.expr, escape)
    case FNumber => StoredLines(PercentD, form.expr, escape)
    case FBool => [OutTruth(form.expr, escape)]
    case FTime => [Open, Declare(TIME_SIZE), BreakDown(form.expr), StoreTime, OutStored(escape), Close]
    case FString => [OutText(form.expr, escape)]
    case FHtml => [OutText(form.expr, false)]
    case FPlain => [OutIfSet(form.expr, escape)]
  }

  // ------------------------------------------------------------- the CSS predicate

  predicate Inline(t: Tree) {
    StyleInfoOf(t.content).inline
  }

  /** node_contains_css_content */
  predicate HasCss(t: Tree, inside: bool) {
    match t.kind
    case HtmlNode => inside && t.content != ""
    case CodeNode => inside && t.content != ""
    case VarNode => inside && t.content != ""
    case StyleNode =>
      if Inline(t) then inside && AnyCss(t.children, inside) else AnyCss(t.children, true)
    case _ => AnyCss(t.children, inside)
  }

  predicate AnyCss(cs: seq<Tree>, inside: bool) {
    cs != [] && (HasCss(cs[0], inside) || AnyCss(cs[1..], inside))
  }

  /** Some child other than a `celse` has CSS content. */
  predicate ThenCss(cs: seq<Tree>, inside: bool) {
    cs != [] && ((cs[0].kind != ElseNode && HasCss(cs[0], inside)) || ThenCss(cs[1..], inside))
  }

  predicate ElseCss(cs: seq<Tree>, inside: bool) {
    var e := LastElse(cs);
    e.Some? && HasCss(cs[e.value], inside)
  }

  /** template_has_external_css */
  predicate HasExternal(t: Tree) {
    (t.kind == StyleNode && !Inline(t) && HasCss(t, false)) || AnyExternal(t.children)
  }

  predicate AnyExternal(cs: seq<Tree>) {
    cs != [] && (HasExternal(cs[0]) || AnyExternal(cs[1..]))
  }

  // ------------------------------------------------------------------- the lines

  function ForLines(tag: string): seq<Line> {
    var p := LoopParamsOf(tag);
    [ForOpen(p.count)] + (if p.items != "" then [LetItem(p.item, p.items)] else [])
  }

  /** emit_css_node */
  function CssLines(t: Tree, inside: bool): seq<Line>
    decreases t, 0
  {
    match t.kind
    case HtmlNode => if inside && t.content != "" then [OutRaw(Quote(t.content))] else []
    case CodeNode => if inside && t.content != "" then [CodeLine(t.content)] else []
    case VarNode => if inside && t.content != "" then VarLines(FormOf(t.content), false) else []
    case LoopNode =>
      if AnyCss(t.children, inside)
      then ForLines(t.content) + CssAll(t.children, inside) + [Close] else []
    case IfNode =>
      if ThenCss(t.children, inside) || ElseCss(t.children, inside) then
        [IfOpen(ConditionOf(t.content))] + CssExcept(t.children, LastElse(t.children), inside)
        + (if ElseCss(t.children, inside)
           then [ElseLine] + CssAll(t.children[LastElse(t.children).value].children, inside) else [])
        + [Close]
      else []
    case StyleNode =>
      if Inline(t) then (if inside then CssAll(t.children, true) else []) else CssAll(t.children, true)
    case _ => CssAll(t.children, inside)
  }

  function CssAll(cs: seq<Tree>, inside: bool): seq<Line>
    decreases cs, 0
  {
    if cs == [] then [] else CssLines(cs[0], inside) + CssAll(cs[1..], inside)
  }

  /** All children but the one at position `skip`. */
  function CssExcept(cs: seq<Tree>, skip: Option<nat>, inside: bool): seq<Line>
    decreases cs, 1
  {
    match skip
    case None => CssAll(cs, inside)
    case Some(k) =>
      if k < |cs| then CssAll(cs[..k], inside) + CssAll(cs[k + 1..], inside) else CssAll(cs, inside)
  }

  /** generate_html_node */
  function HtmlLines(t: Tree): seq<Line> {
    match t.kind
    case HtmlNode => if t.content != "" then [OutRaw(Quote(t.content))] else []
    case CodeNode => if t.content != "" then [CodeLine(t.content)] else []
    case VarNode => if t.content != "" then VarLines(FormOf(t.content), true) else []
    case LoopNode => ForLines(t.content) + HtmlAll(t.children) + [Close]
    case IfNode =>
      var e := LastElse(t.children);
      [IfOpen(ConditionOf(t.content))] + HtmlThen(t.children)
      + (if e.Some? then [ElseLine] + HtmlAll(t.children[e.value].children) else []) + [Close]
    case StyleNode =>
      if Inline(t)
      then
        [StyleTag(Quote(StyleOpen(StyleInfoOf(t.content))))] + CssAll(t.children, true) + [StyleTag(Quote("</style>"))]
      else []
    case _ => HtmlAll(t.children)
  }

  function HtmlAll(cs: seq<Tree>): seq<Line> {
    if cs == [] then [] else HtmlLines(cs[0]) + HtmlAll(cs[1..])
  }

  /** The then branch: every child that is not a `celse`. */
  function HtmlThen(cs: seq<Tree>): seq<Line> {
    if cs == [] then []
    else (if cs[0].kind == ElseNode then [] else HtmlLines(cs[0])) + HtmlThen(cs[1..])
  }

  // --------------------------------------------- what the walks leave in the tree

  function CutVar(t: Tree): Tree {
    if t.content != "" then t.(content := FormOf(t.content).expr) else t
  }

  function AfterCss(t: Tree, inside: bool): (r: Tree)
    ensures r.kind == t.kind
    decreases t, 0
  {
    match t.kind
    case HtmlNode => t
    case CodeNode => t
    case VarNode => if inside then CutVar(t) else t
    case LoopNode => if AnyCss(t.children, inside) then t.(children := AfterCssAll(t.children, inside)) else t
    case IfNode =>
      if ThenCss(t.children, inside) || ElseCss(t.children, inside)
      then t.(children := AfterCssExcept(t.children, LastElse(t.children), inside, ElseCss(t.children, inside)))
      else t
    case StyleNode =>
      if Inline(t) then (if inside then t.(children := AfterCssAll(t.children, true)) else t)
      else t.(children := AfterCssAll(t.children, true))
    case _ => t.(children := AfterCssAll(t.children, inside))
  }

  function AfterCssAll(cs: seq<Tree>, inside: bool): (r: seq<Tree>)
    ensures |r| == |cs|
    ensures forall i :: 0 <= i < |cs| ==> r[i] == AfterCss(cs[i], inside)
    decreases cs, 0
  {
    if cs == [] then [] else [AfterCss(cs[0], inside)] + AfterCssAll(cs[1..], inside)
  }

  /** As AfterCssAll, except that the child at `skip` is changed only when `also`. */
  function AfterCssExcept(cs: seq<Tree>, skip: Option<nat>, inside: bool, also: bool): (r: seq<Tree>)
    requires skip.Some? ==> skip.value < |cs| && cs[skip.value].kind == ElseNode
    ensures |r| == |cs|
    ensures forall i :: 0 <= i < |cs| ==>
              r[i] == if skip == Some(i) && !also then cs[i] else AfterCss(cs[i], inside)
    decreases cs, 1
  {
    var all := AfterCssAll(cs, inside);
    if skip.Some? && !also then all[skip.value := cs[skip.value]] else all
  }

  function AfterHtml(t: Tree): (r: Tree)
    ensures r.kind == t.kind
  {
    match t.kind
    case HtmlNode => t
    case CodeNode => t
    case VarNode => CutVar(t)
    case LoopNode => t.(children := AfterHtmlAll(t.children))
    case IfNode => t.(children := AfterHtmlIf(t.children, LastElse(t.children)))
    case StyleNode => if Inline(t) then t.(children := AfterCssAll(t.children, true)) else t
    case _ => t.(children := AfterHtmlAll(t.children))
  }

  function AfterHtmlAll(cs: seq<Tree>): (r: seq<Tree>)
    ensures |r| == |cs|
    ensures forall i :: 0 <= i < |cs| ==> r[i] == AfterHtml(cs[i])
  {
    if cs == [] then [] else [AfterHtml(cs[0])] + AfterHtmlAll(cs[1..])
  }

  /** `celse` children other than the last one are not visited. */
  function AfterHtmlIf(cs: seq<Tree>, last: Option<nat>): (r: seq<Tree>)
    ensures |r| == |cs|
    ensures forall i :: 0 <= i < |cs| ==>
              r[i] == if cs[i].kind == ElseNode && last != Some(i) then cs[i] else AfterHtml(cs[i])
  {
    seq(|cs|, i requires 0 <= i < |cs| =>
      if cs[i].kind == ElseNode && last != Some(i) then cs[i] else AfterHtml(cs[i]))
  }

  // --------------------------------------------------------------- what fits in C

  /** The attributes of every loop and condition fit the arrays they are copied to. */
  predicate AttributesFit(t: Tree) {
    && (t.kind == LoopNode ==> LoopFits(t.content))
    && (t.kind == IfNode ==> ConditionFits(t.content))
    && AllAttributesFit(t.children)
  }

  predicate AllAttributesFit(cs: seq<Tree>) {
    cs != [] ==> AttributesFit(cs[0]) && AllAttributesFit(cs[1..])
  }

  /** A tree that the walks read without leaving an array. */
  predicate Compilable(t: Tree) {
    CTree(t) && AttributesFit(t)
  }

  /** The two functions of the generated C file; the second only when the gate says so.
      Without the arrays fitting there is no saying what the walks print. */
  datatype Program = Program(html: seq<Line>, css: Option<seq<Line>>)

  function Compile(t: Tree): Program
    requires AttributesFit(t)
  {
    Program(HtmlLines(t), if HasExternal(t) then Some(CssLines(t, false)) else None)
  }
}
