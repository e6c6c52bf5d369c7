/** Reading back the attributes of a `cstyle` tag. */
module TagTheorems {
  import opened Text
  import opened Tags

  /** An attribute as an author writes it: a bare name, or a name and a quoted value. */
  datatype Attribute = Flag(name: string) | Valued(name: string, value: string)

  predicate CleanName(name: string) {
    && name != "" && name[|name| - 1] != '/'
    && forall k :: 0 <= k < |name| ==> !EndsName(name[k]) && name[k] != '>'
  }

  predicate Clean(a: Attribute) {
    CleanName(a.name) && (a.Valued? ==> forall k :: 0 <= k < |a.value| ==> a.value[k] != '"' && a.value[k] != '>')
  }

  function Written(a: Attribute): string {
    match a
    case Flag(name) => name
    case Valued(name, value) => name + "=\"" + value + "\""
  }

  function WrittenAll(attrs: seq<Attribute>): string {
    if attrs == [] then "" else " " + Written(attrs[0]) + WrittenAll(attrs[1..])
  }

  ghost predicate AllClean(attrs: seq<Attribute>) {
    forall i :: 0 <= i < |attrs| ==> Clean(attrs[i])
  }

  predicate AsksInline(attrs: seq<Attribute>) {
    attrs != [] && (attrs[0].name == "setinline" || AsksInline(attrs[1..]))
  }

  /** The attributes that the `style` tag of an inline block keeps, separated by single spaces. */
  function Kept(attrs: seq<Attribute>, first: bool): string {
    if attrs == [] then ""
    else if attrs[0].name == "setinline" then Kept(attrs[1..], first)
    else (if first then "" else " ") + Written(attrs[0]) + Kept(attrs[1..], false)
  }

  lemma {:induction false} NameLengthIs(name: string, t: string)
    requires forall k :: 0 <= k < |name| ==> !EndsName(name[k])
    requires t == "" || EndsName(t[0])
    ensures NameLength(name + t) == |name|
    decreases |name|
  {
    if name == "" {
      assert name + t == t;
    } else {
      assert (name + t)[1..] == name[1..] + t;
      NameLengthIs(name[1..], t);
    }
  }

  lemma {:induction false} AfterQuotedIs(value: string, t: string)
    requires forall k :: 0 <= k < |value| ==> value[k] != '"'
    ensures AfterQuoted(value + "\"" + t, '"') == t
    decreases |value|
  {
    if value == "" {
      assert (value + "\"" + t)[1..] == t;
    } else {
      assert (value + "\"" + t)[1..] == value[1..] + "\"" + t;
      AfterQuotedIs(value[1..], t);
    }
  }

  lemma TrimRightIs(s: string, space: string)
    requires s != "" && !IsSpace(s[|s| - 1]) && (space == "" || space == " ")
    ensures TrimRight(s + space) == s
  {
    if space == "" {
      assert s + space == s;
    } else {
      assert (s + space)[..|s|] == s;
    }
  }

  /** What may follow an attribute: nothing, or a space and the next name. */
  predicate Continues(t: string) {
    t == "" || (2 <= |t| && t[0] == ' ' && !EndsName(t[1]))
  }

  lemma TrimContinuation(t: string)
    requires Continues(t)
    ensures TrimLeft(t) == if t == "" then "" else t[1..]
  {
    if t != "" {
      assert TrimLeft(t[1..]) == t[1..];
    }
  }

  lemma WrittenContinues(attrs: seq<Attribute>)
    requires AllClean(attrs)
    ensures Continues(WrittenAll(attrs))
    ensures attrs != [] ==> WrittenAll(attrs)[1..] == Written(attrs[0]) + WrittenAll(attrs[1..])
  {
    if attrs != [] {
      assert Clean(attrs[0]);
      FirstOfWritten(attrs[0], WrittenAll(attrs[1..]));
      SpaceThen(Written(attrs[0]), WrittenAll(attrs[1..]));
      hide Written, Clean;
    }
  }

  lemma SpaceThen(w: string, t: string)
    requires w + t != "" && !EndsName((w + t)[0])
    ensures Continues(" " + w + t) && (" " + w + t)[1..] == w + t
  {
    hide EndsName;
    assert " " + w + t == " " + (w + t);
  }

  lemma FlagNext(name: string, t: string)
    requires CleanName(name) && Continues(t)
    ensures NextAttr(name + t) == Attr(name, name, TrimLeft(t))
  {
    hide NextAttr, TrimLeft, TrimRight, TrimSlashes, NameLength, ValueOf, AttrText, Continues;
    var after := TrimLeft(t);
    var space := if t == "" then "" else " ";
    ContinuesWith(t);
    NameLengthIs(name, t);
    FlagPieces(name, space, after);
    FlagText(name, space);
    AttrParts(name + t, name, t, name + space, ValuePart(false, after));
  }

  lemma ContinuesWith(t: string)
    requires Continues(t)
    ensures t == (if t == "" then "" else " ") + TrimLeft(t) && (t == "" || EndsName(t[0]))
    ensures ValueOf(t) == ValuePart(false, TrimLeft(t))
  {
    TrimContinuation(t);
    hide TrimLeft;
  }

  lemma FlagText(name: string, space: string)
    requires CleanName(name) && (space == "" || space == " ")
    ensures AttrText(name + space, false) == name
  {
    hide TrimRight, TrimSlashes;
    TrimRightIs(name, space);
    NoSlashes(name);
  }

  lemma NoSlashes(name: string)
    requires CleanName(name)
    ensures TrimSlashes(name) == name
  {}

  /** An attribute from its parts: the name, what follows it, and the text that is consumed. */
  lemma AttrParts(s: string, name: string, behind: string, whole: string, v: ValuePart)
    requires s != "" && !EndsName(s[0]) && NameLength(s) == |name|
    requires s[..|name|] == name && s[|name|..] == behind && ValueOf(behind) == v && |v.rest| <= |s|
             && s[..|s| - |v.rest|] == whole
    ensures NextAttr(s) == Attr(name, AttrText(whole, v.hasValue), v.rest)
  {
    hide NameLength, ValueOf, AttrText, EndsName, TrimLeft, TrimRight, TrimSlashes;
    assert NextAttr(s) == AttrWith(s, |name|, v);
  }

  lemma FlagPieces(name: string, space: string, after: string)
    ensures var s := name + (space + after);
            s[..|name|] == name && s[|name|..] == space + after && s[..|s| - |after|] == name + space
  {}

  lemma ValuedNext(name: string, value: string, t: string)
    requires Clean(Valued(name, value))
    ensures NextAttr(name + "=\"" + value + "\"" + t) == Attr(name, name + "=\"" + value + "\"", t)
  {
    hide NextAttr, TrimLeft, TrimRight, NameLength, ValueOf, AttrText;
    var text := name + "=\"" + value + "\"";
    var quoted := "\"" + value + "\"" + t;
    ValuedPieces(name, value, t);
    NameLengthIs(name, "=" + quoted);
    ValuedText(name, value);
    ValueIs(value, t);
    AttrParts(text + t, name, "=" + quoted, text, ValuePart(true, t));
  }

  lemma ValuedText(name: string, value: string)
    ensures var text := name + "=\"" + value + "\""; AttrText(text, true) == text
  {
    var text := name + "=\"" + value + "\"";
    assert text[|text| - 1] == '"';
    TrimRightIs(text, "");
    assert text + "" == text;
    hide TrimRight;
  }

  lemma ValueIs(value: string, t: string)
    requires forall k :: 0 <= k < |value| ==> value[k] != '"'
    ensures ValueOf("=" + ("\"" + value + "\"" + t)) == ValuePart(true, t)
  {
    hide TrimLeft, AfterQuoted;
    var quoted := "\"" + value + "\"" + t;
    assert ("=" + quoted)[1..] == quoted && quoted[1..] == value + "\"" + t;
    TrimKeeps("=" + quoted);
    TrimKeeps(quoted);
    AfterQuotedIs(value, t);
  }

  /** The slices that NextAttr takes of a name with a value. */
  lemma ValuedPieces(name: string, value: string, t: string)
    ensures var text := name + "=\"" + value + "\"";
            var quoted := "\"" + value + "\"" + t;
            var s := name + ("=" + quoted);
            text + t == s && s[..|name|] == name && s[|name|..] == "=" + quoted
            && ("=" + quoted)[1..] == quoted && quoted[1..] == value + "\"" + t
            && s[..|s| - |t|] == text && text + "" == text
  {}

  /** One attribute in front of others: its name, its text, and where the rest starts. */
  lemma NextIs(a: Attribute, t: string)
    requires Clean(a) && Continues(t)
    ensures var n := NextAttr(Written(a) + t);
            n.name == a.name && n.text == Written(a) && (n.rest == t || n.rest == TrimLeft(t))
  {
    match a
    case Flag(name) => FlagNext(name, t);
    case Valued(name, value) => ValuedNext(name, value, t);
  }

  lemma CollectSkipsSpace(t: string, info: StyleInfo, first: bool)
    requires |info.attributes| < ATTRIBUTES_SIZE && Continues(t)
    ensures CollectAttrs(TrimLeft(t), info, first) == CollectAttrs(t, info, first)
  {
    TrimContinuation(t);
    if t != "" {
      TrimKeeps(t[1..]);
    }
    hide TrimLeft, CollectFrom;
  }

  lemma TrimKeeps(s: string)
    requires s == "" || !IsSpace(s[0])
    ensures TrimLeft(s) == s
  {}

  lemma {:induction false} CollectIs(attrs: seq<Attribute>, info: StyleInfo, first: bool)
    requires AllClean(attrs) && |info.attributes| + |WrittenAll(attrs)| < ATTRIBUTES_SIZE
    ensures CollectAttrs(WrittenAll(attrs), info, first)
            == StyleInfo(info.inline || AsksInline(attrs), info.attributes + Kept(attrs, first))
    decreases |attrs|
  {
    if attrs == [] {
      assert info.attributes + "" == info.attributes;
    } else {
      var a, others := attrs[0], attrs[1..];
      var t := WrittenAll(others);
      CollectOne(attrs, info, first);
      hide CollectAttrs, WrittenAll, Written, Clean;
      if a.name == "setinline" {
        CollectIs(others, info.(inline := true), first);
      } else {
        var sep := if first then "" else " ";
        CollectIs(others, info.(attributes := info.attributes + sep + Written(a)), false);
        Reassociate(info.attributes, sep, Written(a), Kept(others, false));
      }
    }
  }

  lemma Reassociate(a: string, b: string, c: string, d: string)
    ensures a + b + c + d == a + (b + c + d)
  {}

  /** One round of the loop on written attributes. */
  lemma CollectOne(attrs: seq<Attribute>, info: StyleInfo, first: bool)
    requires attrs != [] && AllClean(attrs) && |info.attributes| + |WrittenAll(attrs)| < ATTRIBUTES_SIZE
    ensures |WrittenAll(attrs)| == 1 + |Written(attrs[0])| + |WrittenAll(attrs[1..])|
    ensures CollectAttrs(WrittenAll(attrs), info, first) ==
            if attrs[0].name == "setinline" then CollectAttrs(WrittenAll(attrs[1..]), info.(inline := true), first)
            else CollectAttrs(WrittenAll(attrs[1..]),
                   info.(attributes := info.attributes + (if first then "" else " ") + Written(attrs[0])), false)
  {
    var a, t := attrs[0], WrittenAll(attrs[1..]);
    WrittenContinues(attrs);
    WrittenContinues(attrs[1..]);
    assert CollectAttrs(WrittenAll(attrs), info, first) == CollectFrom(Written(a) + t, info, first) by {
      TrimContinuation(WrittenAll(attrs));
      hide CollectFrom;
    }
    assert |WrittenAll(attrs)| == 1 + |Written(a)| + |t|;
    RoundOn(a, t, info, first);
    hide CollectAttrs, CollectFrom;
  }

  lemma RoundOn(a: Attribute, t: string, info: StyleInfo, first: bool)
    requires Clean(a) && Continues(t) && |info.attributes| + 1 + |Written(a)| < ATTRIBUTES_SIZE
    ensures CollectFrom(Written(a) + t, info, first) ==
            if a.name == "setinline" then CollectAttrs(t, info.(inline := true), first)
            else CollectAttrs(t, info.(attributes := info.attributes + (if first then "" else " ") + Written(a)), false)
  {
    NextIs(a, t);
    FirstOfWritten(a, t);
    hide NextAttr, Written, Clean, TrimLeft, EndsName, Continues;
    if a.name == "setinline" {
      CollectSkipsSpace(t, info.(inline := true), first);
    } else {
      AppendFits(info.attributes, Written(a), first);
      CollectSkipsSpace(t, info.(attributes := AppendAttr(info.attributes, Written(a), first)), false);
    }
    hide AppendAttr, CollectAttrs;
  }

  lemma FirstOfWritten(a: Attribute, t: string)
    requires Clean(a)
    ensures Written(a) != "" && Written(a) + t != "" && !EndsName((Written(a) + t)[0])
  {
    assert Written(a)[0] == a.name[0];
  }

  lemma AppendFits(attributes: string, text: string, first: bool)
    requires |attributes| + 1 + |text| < ATTRIBUTES_SIZE
    ensures AppendAttr(attributes, text, first) == attributes + (if first then "" else " ") + text
  {
    assert text[..|text|] == text;
  }

  lemma {:induction false} WrittenHasNoEnd(attrs: seq<Attribute>)
    requires AllClean(attrs)
    ensures forall k :: 0 <= k < |WrittenAll(attrs)| ==> WrittenAll(attrs)[k] != '>'
  {
    if attrs != [] {
      assert Clean(attrs[0]);
      WrittenHasNoEnd(attrs[1..]);
    }
  }

  lemma StyleInfoParts(tag: string, j: nat, raw: string)
    requires Find(tag, 0, "<cstyle") == Some(0) && Find(tag, 7, ">") == Some(j)
    requires raw == tag[7..j] && |raw| < RAW_SIZE
    ensures StyleInfoOf(tag) == CollectAttrs(raw, StyleInfo(false, ""), true)
  {
    hide Find, CollectAttrs;
    assert raw[..|raw|] == raw;
  }

  lemma StyleInfoFrom(raw: string, rest: string)
    requires |raw| < RAW_SIZE && forall k :: 0 <= k < |raw| ==> raw[k] != '>'
    ensures StyleInfoOf("<cstyle" + raw + ">" + rest) == CollectAttrs(raw, StyleInfo(false, ""), true)
  {
    hide StyleInfoOf, CollectAttrs;
    var head := "<cstyle";
    var tag := head + raw + ">" + rest;
    assert tag[0..7] == head;
    assert At(tag, 0, head);
    FindEnd(head, raw, rest);
    assert raw == tag[7..7 + |raw|];
    StyleInfoParts(tag, 7 + |raw|, raw);
  }

  /** A written `cstyle` tag reads back: it is inline exactly when `setinline` is among
      its attributes, and all other attributes are kept as written, in order. */
  lemma StyleTagRoundTrip(attrs: seq<Attribute>, rest: string)
    requires AllClean(attrs) && |WrittenAll(attrs)| < ATTRIBUTES_SIZE
    ensures StyleInfoOf("<cstyle" + WrittenAll(attrs) + ">" + rest) == StyleInfo(AsksInline(attrs), Kept(attrs, true))
  {
    WrittenHasNoEnd(attrs);
    CollectIs(attrs, StyleInfo(false, ""), true);
    hide WrittenAll, CollectAttrs, Kept, AllClean, StyleInfoOf;
    StyleInfoFrom(WrittenAll(attrs), rest);
    assert "" + Kept(attrs, true) == Kept(attrs, true);
  }

  lemma FindEnd(head: string, raw: string, rest: string)
    requires forall k :: 0 <= k < |raw| ==> raw[k] != '>'
    ensures Find(head + raw + ">" + rest, |head|, ">") == Some(|head| + |raw|)
  {
    var tag := head + raw + ">" + rest;
    forall k: nat | |head| <= k < |head| + |raw|
      ensures !At(tag, k, ">")
    {
      assert tag[k] == raw[k - |head|];
      if At(tag, k, ">") {
        AtChar(tag, k, ">", 0);
      }
    }
    var end := |head| + |raw|;
    assert tag[end..end + 1] == ">";
    assert At(tag, end, ">");
  }

  // ------------------------------------------------------------- the style tag printed

  /** The attributes but `setinline`. */
  function Others(attrs: seq<Attribute>): seq<Attribute> {
    if attrs == [] then []
    else (if attrs[0].name == "setinline" then [] else [attrs[0]]) + Others(attrs[1..])
  }

  lemma {:induction false} KeptAre(attrs: seq<Attribute>, first: bool)
    requires AllClean(attrs)
    ensures WrittenAll(Others(attrs)) == (if first && Kept(attrs, true) != "" then " " else "") + Kept(attrs, first)
  {
    hide WrittenAll, Others, Kept, Written, Clean;
    if attrs == [] {
      NothingKept(first);
    } else {
      var rest := attrs[1..];
      assert AllClean(rest);
      hide AllClean;
      KeptStep(attrs, first);
      KeptStep(attrs, true);
      KeptAre(rest, false);
      KeptAre(rest, first);
      if attrs[0].name != "setinline" {
        GluedTexts(Written(attrs[0]), Kept(rest, false));
      }
    }
  }

  lemma GluedTexts(w: string, k: string)
    ensures "" + w + k == w + k && " " + w + k == " " + (w + k) && "" + (" " + w + k) == " " + w + k && "" + k == k
  {}

  lemma NothingKept(first: bool)
    ensures WrittenAll(Others([])) == "" && Kept([], first) == "" && Kept([], true) == ""
  {}

  lemma KeptStep(attrs: seq<Attribute>, first: bool)
    requires attrs != [] && AllClean(attrs)
    ensures attrs[0].name == "setinline" ==>
              Others(attrs) == Others(attrs[1..]) && Kept(attrs, first) == Kept(attrs[1..], first)
    ensures attrs[0].name != "setinline" ==>
              && Kept(attrs, first) == (if first then "" else " ") + Written(attrs[0]) + Kept(attrs[1..], false)
              && WrittenAll(Others(attrs)) == " " + Written(attrs[0]) + WrittenAll(Others(attrs[1..]))
              && Written(attrs[0]) != ""
  {
    WrittenIsText(attrs[0]);
    hide Written, Clean;
    if attrs[0].name == "setinline" {
      assert [] + Others(attrs[1..]) == Others(attrs[1..]);
    } else {
      assert Others(attrs) == [attrs[0]] + Others(attrs[1..]);
      assert ([attrs[0]] + Others(attrs[1..]))[1..] == Others(attrs[1..]);
    }
  }

  lemma WrittenIsText(a: Attribute)
    requires Clean(a)
    ensures Written(a) != ""
  {}

  /** The inline block of a `cstyle` tag is opened by the same tag, named `style`, with all
      its attributes but `setinline`, in order. */
  lemma InlineOpening(attrs: seq<Attribute>, rest: string)
    requires AllClean(attrs) && |WrittenAll(attrs)| < 256
    ensures StyleOpen(StyleInfoOf("<cstyle" + WrittenAll(attrs) + ">" + rest))
            == "<style" + WrittenAll(Others(attrs)) + ">"
  {
    hide WrittenAll, AllClean, Others, Kept, StyleInfoOf;
    StyleTagRoundTrip(attrs, rest);
    KeptAre(attrs, true);
    StyleTexts(Kept(attrs, true));
  }

  lemma StyleTexts(kept: string)
    ensures "<style" + (" " + kept) + ">" == "<style " + kept + ">"
    ensures kept == "" ==> "<style" + ("" + kept) + ">" == "<style>"
  {}
}
