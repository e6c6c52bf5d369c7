/** Reading the attributes of control tags. */
module Tags {
  import opened Text

  // ------------------------------------------------------------ cloop and cif

  /** The text after the first occurrence of `key` (which ends in a quote) up to the next quote. */
  function Attribute(tag: string, key: string): (r: Option<string>) {
    match Find(tag, 0, key)
    case None => None
    case Some(i) =>
      match Find(tag, i + |key|, "\"")
      case None => None
      case Some(j) => Some(tag[i + |key|..j])
  }

  datatype LoopParams = LoopParams(item: string, items: string, count: string)

  /** parse_cloop_params */
  function LoopParamsOf(tag: string): LoopParams {
    LoopParams(
      match Attribute(tag, "var=\"") case Some(v) => v case None => "item",
      match Attribute(tag, "array=\"") case Some(v) => v case None => "",
      match Attribute(tag, "count=\"") case Some(v) => v case None => "")
  }

  /** A quote at p that is not escaped; the first character is never taken as escaped. */
  predicate ClosingQuote(s: string, start: nat, p: nat) {
    start <= p < |s| && s[p] == '"' && (p == start || s[p - 1] != '\\')
  }

  function FindClosingQuote(s: string, start: nat, p: nat): (r: Option<nat>)
    ensures r.Some? ==> p <= r.value && ClosingQuote(s, start, r.value)
                        && forall k :: p <= k < r.value ==> !ClosingQuote(s, start, k)
    ensures r.None? ==> forall k :: p <= k ==> !ClosingQuote(s, start, k)
    decreases |s| - p
  {
    if ClosingQuote(s, start, p) then Some(p)
    else if p < |s| then FindClosingQuote(s, start, p + 1)
    else None
  }

  /** parse_cif_condition; empty when the attribute is missing or not closed. */
  function ConditionOf(tag: string): string {
    match Find(tag, 0, "condition=\"")
    case None => ""
    case Some(i) =>
      var start := i + |"condition=\""|;
      match FindClosingQuote(tag, start, start)
      case None => ""
      case Some(j) => tag[start..j]
  }

  /** The arrays of the callers: the name of the item, and the other attributes. */
  const ITEM_SIZE: nat := 64
  const EXPR_SIZE: nat := 256

  /** Every attribute of a loop tag fits its array with its NUL. */
  predicate LoopFits(tag: string) {
    var p := LoopParamsOf(tag);
    |p.item| < ITEM_SIZE && |p.items| < EXPR_SIZE && |p.count| < EXPR_SIZE
  }

  predicate ConditionFits(tag: string) {
    |ConditionOf(tag)| < EXPR_SIZE
  }

  /** Every condition whose own quotes are all escaped survives the tag. */
  lemma ConditionRoundTrip(condition: string, rest: string)
    requires forall k :: 0 <= k < |condition| ==> !ClosingQuote(condition, 0, k)
    requires condition == "" || condition[|condition| - 1] != '\\'
    ensures ConditionOf("<cif condition=\"" + condition + "\"" + rest) == condition
  {
    var tag := "<cif condition=\"" + condition + "\"" + rest;
    var q := 16 + |condition|;
    AttributeAt(condition + "\"" + rest);
    assert tag == "<cif condition=\"" + (condition + "\"" + rest);
    hide Find, At;
    assert tag[16..q] == condition && tag[q] == '"';
    forall k | 16 <= k < q
      ensures !ClosingQuote(tag, 16, k)
    {
      assert tag[k] == condition[k - 16];
      assert !ClosingQuote(condition, 0, k - 16);
    }
    assert ClosingQuote(tag, 16, q);
  }

  lemma AttributeAt(behind: string)
    ensures |"condition=\""| == 11 && Find("<cif condition=\"" + behind, 0, "condition=\"") == Some(5)
  {
    var head := "<cif condition=\"";
    var tag := head + behind;
    assert At(tag, 5, "condition=\"") by {
      assert tag[5..16] == head[5..16] == "condition=\"";
    }
    forall k: nat | k < 5
      ensures !At(tag, k, "condition=\"")
    {
      NoneBefore(k);
      assert tag[k] == head[k] && tag[k + 1] == head[k + 1];
      if At(tag, k, "condition=\"") {
        AtChar(tag, k, "condition=\"", 0);
        AtChar(tag, k, "condition=\"", 1);
      }
    }
    hide At;
    assert At(tag, 5, "condition=\"");
  }

  lemma NoneBefore(k: nat)
    requires k < 5
    ensures var head := "<cif condition=\""; head[k] != 'c' || head[k + 1] != 'o'
  {}

  /** A condition of 300 characters does not fit. */
  lemma LongConditionExample()
    ensures !ConditionFits("<cif condition=\"" + seq(300, _ => 'x') + "\"" + ">")
  {
    hide ConditionOf;
    ConditionRoundTrip(seq(300, _ => 'x'), ">");
  }

  /** The condition read from any tag starts with no quote and has a backslash before every
      quote in it, and the backslash stays. A C condition with a string literal, whose
      opening quote has no backslash before it, is therefore not expressible. */
  lemma QuotesStayEscaped(tag: string, k: nat)
    requires k < |ConditionOf(tag)| && ConditionOf(tag)[k] == '"'
    ensures k > 0 && ConditionOf(tag)[k - 1] == '\\'
  {
    var start := Find(tag, 0, "condition=\"").value + |"condition=\""|;
    var end := FindClosingQuote(tag, start, start).value;
    assert ConditionOf(tag) == tag[start..end];
    hide ConditionOf, FindClosingQuote;
    assert !ClosingQuote(tag, start, start + k);
  }

  /** Exactly the conditions that some tag can carry: no quote in them that would end the
      attribute, and no backslash at the end, which would take the closing quote with it. */
  lemma ExpressibleIff(condition: string)
    requires condition != ""
    ensures (exists tag :: ConditionOf(tag) == condition)
            <==> (condition[|condition| - 1] != '\\' &&
                  forall k :: 0 <= k < |condition| ==> !ClosingQuote(condition, 0, k))
  {
    hide ConditionOf, ClosingQuote;
    forall tag | ConditionOf(tag) == condition
      ensures condition[|condition| - 1] != '\\' && forall k :: 0 <= k < |condition| ==> !ClosingQuote(condition, 0, k)
    {
      ReadFromTag(tag);
    }
    if condition[|condition| - 1] != '\\' && forall k :: 0 <= k < |condition| ==> !ClosingQuote(condition, 0, k) {
      ConditionRoundTrip(condition, ">");
      assert ConditionOf("<cif condition=\"" + condition + "\"" + ">") == condition;
    }
  }

  /** What is read from a tag ends neither before nor behind its closing quote. */
  lemma ReadFromTag(tag: string)
    requires ConditionOf(tag) != ""
    ensures var c := ConditionOf(tag);
            c[|c| - 1] != '\\' && forall k :: 0 <= k < |c| ==> !ClosingQuote(c, 0, k)
  {
    var c := ConditionOf(tag);
    var start := Find(tag, 0, "condition=\"").value + |"condition=\""|;
    var end := FindClosingQuote(tag, start, start).value;
    assert c == tag[start..end] && ClosingQuote(tag, start, end);
    hide ConditionOf, FindClosingQuote, Find;
    forall k | 0 <= k < |c|
      ensures !ClosingQuote(c, 0, k)
    {
      assert !ClosingQuote(tag, start, start + k);
    }
  }

  lemma StringLiteralExample()
    ensures forall tag :: ConditionOf(tag) != "strcmp(a, \"x\") == 0"
  {
    var condition := "strcmp(a, \"x\") == 0";
    assert condition[10] == '"' && condition[9] == ' ';
    forall tag
      ensures ConditionOf(tag) != condition
    {
      if ConditionOf(tag) == condition {
        QuotesStayEscaped(tag, 10);
      }
    }
  }

  // ------------------------------------------------------------------- cstyle

  const ATTRIBUTES_SIZE: nat := 256
  const RAW_SIZE: nat := 512

  datatype StyleInfo = StyleInfo(inline: bool, attributes: string)

  predicate EndsName(c: char) {
    IsSpace(c) || c == '='
  }

  function NameLength(s: string): (n: nat)
    ensures n <= |s|
    ensures forall k :: 0 <= k < n ==> !EndsName(s[k])
    ensures n < |s| ==> EndsName(s[n])
  {
    if s == "" || EndsName(s[0]) then 0 else 1 + NameLength(s[1..])
  }

  /** The text after an attribute value: a quoted string or everything up to a space. */
  function AfterValue(s: string): (rest: string)
    ensures |rest| <= |s| && rest == s[|s| - |rest|..]
  {
    if s == "" then s
    else if s[0] == '"' || s[0] == '\'' then AfterQuoted(s[1..], s[0])
    else AfterWord(s)
  }

  function AfterQuoted(s: string, quote: char): (rest: string)
    ensures |rest| <= |s| && rest == s[|s| - |rest|..]
  {
    if s == "" then s else if s[0] == quote then s[1..] else AfterQuoted(s[1..], quote)
  }

  function AfterWord(s: string): (rest: string)
    ensures |rest| <= |s| && rest == s[|s| - |rest|..]
  {
    if s == "" || IsSpace(s[0]) then s else AfterWord(s[1..])
  }

  function TrimSlashes(s: string): (r: string)
    ensures r <= s
  {
    if s != "" && s[|s| - 1] == '/' then TrimSlashes(s[..|s| - 1]) else s
  }

  /** One attribute at the start of s, which does not begin with a space. */
  datatype Attr = Attr(name: string, text: string, rest: string)

  /** What follows a name: a value or none, and the text behind it. */
  datatype ValuePart = ValuePart(hasValue: bool, rest: string)

  function ValueOf(behind: string): (v: ValuePart)
    ensures |v.rest| <= |behind|
  {
    var after := TrimLeft(behind);
    if after != "" && after[0] == '=' then ValuePart(true, AfterValue(TrimLeft(after[1..])))
    else ValuePart(false, after)
  }

  /** The text of an attribute without the spaces and, when it has no value, the slashes
      at its end. */
  function AttrText(text: string, hasValue: bool): string {
    if hasValue then TrimRight(text) else TrimSlashes(TrimRight(text))
  }

  function AttrWith(s: string, n: nat, v: ValuePart): Attr
    requires n <= |s| && |v.rest| <= |s|
  {
    Attr(s[..n], AttrText(s[..|s| - |v.rest|], v.hasValue), v.rest)
  }

  function NextAttr(s: string): (a: Attr)
    requires s != "" && !EndsName(s[0])
    ensures |a.rest| < |s|
  {
    var n := NameLength(s);
    AttrWith(s, n, ValueOf(s[n..]))
  }

  function Min(a: int, b: int): int {
    if a < b then a else b
  }

  /** The attribute loop of parse_cstyle_tag_info: `info` is what was collected so far. */
  function CollectAttrs(s: string, info: StyleInfo, first: bool): StyleInfo
    requires |info.attributes| < ATTRIBUTES_SIZE
    decreases |s|, 1
  {
    CollectFrom(TrimLeft(s), info, first)
  }

  /** One round of the loop, after the spaces. */
  function CollectFrom(c: string, info: StyleInfo, first: bool): StyleInfo
    requires |info.attributes| < ATTRIBUTES_SIZE
    decreases |c|, 0
  {
    if c == "" || EndsName(c[0]) then info
    else
      var a := NextAttr(c);
      if a.name == "setinline" then CollectAttrs(a.rest, info.(inline := true), first)
      else if a.text == "" then CollectAttrs(a.rest, info, first)
      else if !first && |info.attributes| + 1 >= ATTRIBUTES_SIZE then info
      else CollectAttrs(a.rest, info.(attributes := AppendAttr(info.attributes, a.text, first)), false)
  }

  /** Append one attribute, cut to the room that is left. */
  function AppendAttr(attributes: string, text: string, first: bool): (r: string)
    requires |attributes| < ATTRIBUTES_SIZE && (!first ==> |attributes| + 1 < ATTRIBUTES_SIZE)
    ensures |r| < ATTRIBUTES_SIZE
  {
    var prefix := attributes + if first then "" else " ";
    prefix + text[..Min(|text|, ATTRIBUTES_SIZE - |prefix| - 1)]
  }

  /** parse_cstyle_tag_info */
  function StyleInfoOf(tag: string): StyleInfo {
    match Find(tag, 0, "<cstyle")
    case None => StyleInfo(false, "")
    case Some(i) =>
      var start := i + |"<cstyle"|;
      match Find(tag, start, ">")
      case None => StyleInfo(false, "")
      case Some(j) =>
        var raw := tag[start..j];
        CollectAttrs(raw[..Min(|raw|, RAW_SIZE - 1)], StyleInfo(false, ""), true)
  }

  /** The opening tag the HTML program prints for an inline block. */
  function StyleOpen(info: StyleInfo): string {
    if info.attributes != "" then "<style " + info.attributes + ">" else "<style>"
  }
}
