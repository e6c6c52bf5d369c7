/** The cursor loops that read control tags. */
module TagParser {
  import opened Text
  import opened Escape
  import opened Tags

  /** strncpy(dst, text, strlen(text)), and the NUL behind it. `inside` says whether all
      writes are inside the array; the model leaves out those that are not. */
  method CopyInto(dst: array<char>, text: string) returns (inside: bool)
    requires NUL !in text
    modifies dst
    ensures inside <==> |text| < dst.Length
    ensures inside ==> CString(dst[..]) == text
  {
    for i := 0 to |text|
      invariant forall k :: 0 <= k < i && k < dst.Length ==> dst[k] == text[k]
    {
      if i < dst.Length {
        dst[i] := text[i];
      }
    }
    inside := |text| < dst.Length;
    if inside {
      dst[|text|] := NUL;
      CStringIs(dst[..], text);
    }
  }

  /** One attribute of parse_cloop_params: its text, or what was in the array before. */
  method ReadQuotedAttribute(tag: string, key: string, dst: array<char>) returns (inside: bool)
    requires NUL !in tag
    modifies dst
    ensures var a := Attribute(tag, key);
            if a.Some? then (inside <==> |a.value| < dst.Length) && (inside ==> CString(dst[..]) == a.value)
            else inside && dst[..] == old(dst[..])
  {
    inside := true;
    var found := Find(tag, 0, key);
    if found.Some? {
      var start := found.value + |key|;
      var end := Find(tag, start, "\"");
      if end.Some? {
        inside := CopyInto(dst, tag[start..end.value]);
      }
    }
  }

  /** parse_cloop_params: all writes are inside the arrays exactly when the attributes fit. */
  method ParseCloopParams(tag: string, item: array<char>, items: array<char>, count: array<char>) returns (inside: bool)
    requires NUL !in tag && item.Length == ITEM_SIZE && items.Length == EXPR_SIZE && count.Length == EXPR_SIZE
    requires item != items && item != count && items != count
    modifies item, items, count
    ensures inside <==> LoopFits(tag)
    ensures var p := LoopParamsOf(tag); inside <==> |p.item| < 64 && |p.items| < 256 && |p.count| < 256
    ensures inside ==> LoopParamsOf(tag) == LoopParams(CString(item[..]), CString(items[..]), CString(count[..]))
  {
    hide Attribute, CString;
    var one := CopyInto(item, "item");
    var two := CopyInto(items, "");
    var three := CopyInto(count, "");
    one := ReadQuotedAttribute(tag, "var=\"", item);
    two := ReadQuotedAttribute(tag, "array=\"", items);
    three := ReadQuotedAttribute(tag, "count=\"", count);
    inside := one && two && three;
  }

  /** parse_cif_condition: all writes are inside the array exactly when the condition fits. */
  method ParseCifCondition(tag: string, condition: array<char>) returns (inside: bool)
    requires NUL !in tag && condition.Length == EXPR_SIZE
    modifies condition
    ensures inside <==> ConditionFits(tag)
    ensures inside <==> |ConditionOf(tag)| < 256
    ensures inside ==> CString(condition[..]) == ConditionOf(tag)
  {
    hide CString;
    inside := CopyInto(condition, "");
    var found := Find(tag, 0, "condition=\"");
    if found.Some? {
      var start := found.value + |"condition=\""|;
      var p := start;
      while p < |tag| && !(tag[p] == '"' && (p == start || tag[p - 1] != '\\'))
        invariant start <= p && FindClosingQuote(tag, start, p) == FindClosingQuote(tag, start, start)
        decreases |tag| - p
      {
        p := p + 1;
      }
      if p < |tag| {
        inside := CopyInto(condition, tag[start..p]);
      }
    }
  }

  lemma NameStep(b: string, p: nat)
    requires p <= |b|
    ensures p < |b| && !EndsName(b[p]) ==> NameLength(From(b, p)) == 1 + NameLength(From(b, p + 1))
    ensures p == |b| || EndsName(b[p]) ==> NameLength(From(b, p)) == 0
  {
    if p < |b| {
      FromMore(b, p);
    }
    hide From;
  }

  lemma WordStep(b: string, p: nat, quote: char)
    requires p <= |b|
    ensures p < |b| && !IsSpace(b[p]) ==> AfterWord(From(b, p)) == AfterWord(From(b, p + 1))
    ensures p == |b| || IsSpace(b[p]) ==> AfterWord(From(b, p)) == From(b, p)
    ensures p < |b| && b[p] != quote ==> AfterQuoted(From(b, p), quote) == AfterQuoted(From(b, p + 1), quote)
    ensures p == |b| ==> AfterQuoted(From(b, p), quote) == From(b, p)
    ensures p < |b| && b[p] == quote ==> AfterQuoted(From(b, p), quote) == From(b, p + 1)
  {
    if p < |b| {
      FromMore(b, p);
    }
    hide From, IsSpace;
  }

  method SkipQuoted(b: string, start: nat, quote: char) returns (cursor: nat)
    requires start <= |b|
    ensures start <= cursor <= |b| && From(b, cursor) == AfterQuoted(From(b, start), quote)
  {
    hide AfterQuoted, AfterWord, From;
    cursor := start;
    while cursor < |b| && b[cursor] != quote
      invariant start <= cursor <= |b| && AfterQuoted(From(b, cursor), quote) == AfterQuoted(From(b, start), quote)
    {
      WordStep(b, cursor, quote);
      cursor := cursor + 1;
    }
    WordStep(b, cursor, quote);
    if cursor < |b| {
      cursor := cursor + 1;
    }
  }

  method SkipWord(b: string, start: nat) returns (cursor: nat)
    requires start <= |b|
    ensures start <= cursor <= |b| && From(b, cursor) == AfterWord(From(b, start))
  {
    hide AfterQuoted, AfterWord, From, IsSpace;
    cursor := start;
    while cursor < |b| && !IsSpace(b[cursor])
      invariant start <= cursor <= |b| && AfterWord(From(b, cursor)) == AfterWord(From(b, start))
    {
      WordStep(b, cursor, '"');
      cursor := cursor + 1;
    }
    WordStep(b, cursor, '"');
  }

  lemma ValueCase(b: string, start: nat)
    requires start <= |b|
    ensures start == |b| ==> AfterValue(From(b, start)) == AfterWord(From(b, start))
    ensures start < |b| ==> AfterValue(From(b, start))
                            == if b[start] == '"' || b[start] == '\'' then AfterQuoted(From(b, start + 1), b[start])
                               else AfterWord(From(b, start))
  {
    hide AfterQuoted;
    if start < |b| {
      FromMore(b, start);
    }
  }

  /** Step over an attribute value. */
  method SkipValue(b: string, start: nat) returns (cursor: nat)
    requires start <= |b|
    ensures start <= cursor <= |b| && From(b, cursor) == AfterValue(From(b, start))
  {
    hide AfterWord, AfterQuoted, AfterValue, From, IsSpace;
    ValueCase(b, start);
    if start < |b| && (b[start] == '"' || b[start] == '\'') {
      cursor := SkipQuoted(b, start + 1, b[start]);
    } else {
      cursor := SkipWord(b, start);
    }
  }

  method TrimAttribute(text: string, hasValue: bool) returns (t: string)
    ensures t == AttrText(text, hasValue)
  {
    var n := |text|;
    assert text[..n] == text;
    while n > 0 && IsSpace(text[n - 1])
      invariant 0 <= n <= |text| && TrimRight(text[..n]) == TrimRight(text)
    {
      assert text[..n][..n - 1] == text[..n - 1];
      n := n - 1;
    }
    ghost var trimmed := text[..n];
    assert TrimRight(text) == trimmed;
    if !hasValue {
      while n > 0 && text[n - 1] == '/'
        invariant 0 <= n <= |text| && TrimSlashes(text[..n]) == TrimSlashes(trimmed)
      {
        assert text[..n][..n - 1] == text[..n - 1];
        n := n - 1;
      }
    }
    t := text[..n];
  }

  lemma AttrIs(b: string, nameStart: nat, nameEnd: nat, end: nat, hasValue: bool)
    requires nameStart < nameEnd <= end <= |b| && nameEnd - nameStart == NameLength(From(b, nameStart))
    requires !EndsName(b[nameStart]) && ValueOf(From(b, nameEnd)) == ValuePart(hasValue, From(b, end))
    ensures var s := From(b, nameStart);
            s != "" && !EndsName(s[0])
            && NextAttr(s) == Attr(b[nameStart..nameEnd], AttrText(b[nameStart..end], hasValue), From(b, end))
  {
    hide ValueOf, AttrText, NameLength, EndsName, From;
    FromMore(b, nameStart);
    FromSlices(b, nameStart, nameEnd);
    FromSlices(b, nameStart, end);
    var s := From(b, nameStart);
    assert NextAttr(s) == AttrWith(s, nameEnd - nameStart, ValuePart(hasValue, From(b, end)));
  }

  lemma FromSlices(b: string, i: nat, j: nat)
    requires i <= j <= |b|
    ensures |From(b, i)| == |b| - i && |From(b, j)| == |b| - j
    ensures From(b, i)[j - i..] == From(b, j) && From(b, i)[..j - i] == b[i..j]
  {}

  /** The name of an attribute. */
  method ReadName(b: string, nameStart: nat) returns (cursor: nat)
    requires nameStart < |b| && !EndsName(b[nameStart])
    ensures nameStart < cursor <= |b| && cursor - nameStart == NameLength(From(b, nameStart))
  {
    hide From, NameLength, EndsName;
    cursor := nameStart;
    while cursor < |b| && !EndsName(b[cursor])
      invariant nameStart <= cursor <= |b|
      invariant cursor - nameStart + NameLength(From(b, cursor)) == NameLength(From(b, nameStart))
    {
      NameStep(b, cursor);
      cursor := cursor + 1;
    }
    NameStep(b, cursor);
  }

  method ReadValue(b: string, nameEnd: nat) returns (hasValue: bool, end: nat)
    requires nameEnd <= |b|
    ensures nameEnd <= end <= |b| && ValueOf(From(b, nameEnd)) == ValuePart(hasValue, From(b, end))
  {
    hide TrimLeft, AfterValue, From, IsSpace;
    end := SkipSpaces(b, nameEnd);
    NextIs(b, end);
    hasValue := end < |b| && b[end] == '=';
    if hasValue {
      FromMore(b, end);
      end := SkipSpaces(b, end + 1);
      end := SkipValue(b, end);
    }
  }

  /** One attribute: its name, its text, and where it ends. */
  method ReadAttribute(b: string, nameStart: nat) returns (name: string, text: string, cursor: nat)
    requires nameStart < |b| && !EndsName(b[nameStart])
    ensures nameStart < cursor <= |b|
    ensures var s := From(b, nameStart);
            s != "" && !EndsName(s[0]) && NextAttr(s) == Attr(name, text, From(b, cursor))
  {
    hide ValueOf, AttrText, NextAttr, From, EndsName, NameLength;
    var nameEnd := ReadName(b, nameStart);
    name := b[nameStart..nameEnd];
    var hasValue;
    hasValue, cursor := ReadValue(b, nameEnd);
    text := TrimAttribute(b[nameStart..cursor], hasValue);
    AttrIs(b, nameStart, nameEnd, cursor, hasValue);
  }

  lemma CollectStep(c: string, info: StyleInfo, first: bool)
    requires |info.attributes| < ATTRIBUTES_SIZE
    ensures CollectAttrs(c, info, first) == CollectFrom(TrimLeft(c), info, first)
  {}

  /** The attribute loop of parse_cstyle_tag_info. */
  method CollectAttributes(b: string) returns (info: StyleInfo)
    ensures info == CollectAttrs(b, StyleInfo(false, ""), true)
  {
    hide CollectAttrs, NextAttr, TrimLeft, From, AppendAttr, EndsName;
    info := StyleInfo(false, "");
    var cursor, first := 0, true;
    assert From(b, 0) == b by {
      FromAll(b);
    }
    while cursor < |b|
      invariant 0 <= cursor <= |b| && |info.attributes| < ATTRIBUTES_SIZE
      invariant CollectAttrs(From(b, cursor), info, first) == CollectAttrs(b, StyleInfo(false, ""), true)
      decreases |b| - cursor
    {
      CollectStep(From(b, cursor), info, first);
      cursor := SkipSpaces(b, cursor);
      NextIs(b, cursor);
      if cursor == |b| || EndsName(b[cursor]) {
        return;
      }
      var name, text;
      name, text, cursor := ReadAttribute(b, cursor);
      if name == "setinline" {
        info := info.(inline := true);
      } else if text != "" {
        if !first && |info.attributes| + 1 >= ATTRIBUTES_SIZE {
          return;
        }
        info := info.(attributes := AppendAttr(info.attributes, text, first));
        first := false;
      }
    }
    CollectEnds(b, cursor, info, first);
  }

  lemma FromAll(b: string)
    ensures From(b, 0) == b
  {}

  lemma CollectEnds(b: string, cursor: nat, info: StyleInfo, first: bool)
    requires cursor >= |b| && |info.attributes| < ATTRIBUTES_SIZE
    ensures CollectAttrs(From(b, cursor), info, first) == info
  {
    FromEnd(b, cursor);
    CollectStep("", info, first);
  }

  /** parse_cstyle_tag_info */
  method ParseStyleTag(tag: string) returns (info: StyleInfo)
    ensures info == StyleInfoOf(tag)
  {
    hide CollectAttrs;
    info := StyleInfo(false, "");
    var start := Find(tag, 0, "<cstyle");
    if start.None? {
      return;
    }
    var from := start.value + |"<cstyle"|;
    var end := Find(tag, from, ">");
    if end.None? {
      return;
    }
    var raw := tag[from..end.value];
    if raw == "" {
      CollectEnds("", 0, info, true);
      FromAll("");
      return;
    }
    info := CollectAttributes(raw[..Min(|raw|, RAW_SIZE - 1)]);
  }
}
