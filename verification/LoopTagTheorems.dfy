/** Reading back the attributes of a `cloop` tag. */
module LoopTagTheorems {
  import opened Text
  import opened Tags

  /** The value of an attribute that no quote ends early and no other key runs into. */
  predicate LoopValue(v: string) {
    '"' !in v && (v != "" ==> v[|v| - 1] != '=')
  }

  /** A key ends in `="`, and these two characters are nowhere else in it. */
  predicate IsKey(key: string) {
    && 3 <= |key| && key[|key| - 1] == '"' && key[|key| - 2] == '='
    && forall k :: 0 <= k < |key| - 1 ==> key[k] != '"'
  }

  /** The first key in the text in front of the value is the one that is looked for. */
  lemma AttributeIs(before: string, key: string, value: string, behind: string)
    requires IsKey(key) && '"' !in value
    requires forall k :: 0 <= k < |before| ==> !At(before + key, k, key)
    ensures Attribute(before + (key + (value + ("\"" + behind))), key) == Some(value)
  {
    hide Find, At;
    var tail := value + ("\"" + behind);
    var tag := before + (key + tail);
    FindKey(before, key, tail);
    FindQuote(before + key, value, behind);
    ValueInFront(before + key, value, behind);
    assert tag == (before + key) + tail;
  }

  lemma FindKey(before: string, key: string, tail: string)
    requires key != "" && forall k :: 0 <= k < |before| ==> !At(before + key, k, key)
    ensures Find(before + (key + tail), 0, key) == Some(|before|)
  {
    var tag, n := before + (key + tail), |before|;
    KeyInFront(before, key, tail);
    forall k: nat | k < n
      ensures !At(tag, k, key)
    {
      SliceOf(tag, 0, n + |key|, k, k + |key|);
      assert !At(before + key, k, key);
    }
    hide At;
  }

  lemma FindQuote(head: string, value: string, behind: string)
    requires '"' !in value
    ensures Find(head + (value + ("\"" + behind)), |head|, "\"") == Some(|head| + |value|)
  {
    var tag, n, m := head + (value + ("\"" + behind)), |head|, |head| + |value|;
    hide Find, At;
    ValueInFront(head, value, behind);
    QuoteAt(tag, m);
    forall k: nat | n <= k < m
      ensures !At(tag, k, "\"")
    {
      QuoteAt(tag, k);
    }
  }

  lemma QuoteAt(tag: string, k: nat)
    ensures At(tag, k, "\"") <==> k < |tag| && tag[k] == '"'
  {
    if k < |tag| {
      assert tag[k..k + 1] == [tag[k]];
    }
  }

  lemma KeyInFront(before: string, key: string, tail: string)
    ensures var tag, n := before + (key + tail), |before|;
            tag[n..n + |key|] == key && tag[0..n + |key|] == before + key && At(tag, n, key)
  {}

  lemma ValueInFront(head: string, value: string, behind: string)
    ensures var tag := head + (value + ("\"" + behind));
            var n, m := |head|, |head| + |value|;
            && tag[n..m] == value && m < |tag| && tag[m] == '"' && tag[m..m + 1] == "\""
            && forall k :: n <= k < m ==> tag[k] == value[k - n]
  {}

  /** Attributes that are written into a loop tag are read back, each from its own key. */
  lemma LoopTagRoundTrip(item: string, items: string, count: string)
    requires LoopValue(item) && LoopValue(items) && LoopValue(count)
    ensures LoopParamsOf("<cloop var=\"" + item + "\" array=\"" + items + "\" count=\"" + count + "\">")
            == LoopParams(item, items, count)
  {
    hide Attribute, At, LoopValue;
    var tag := "<cloop var=\"" + item + "\" array=\"" + items + "\" count=\"" + count + "\">";
    var b1 := "<cloop ";
    var b2 := "<cloop var=\"" + item + "\" ";
    var b3 := "<cloop var=\"" + item + "\" array=\"" + items + "\" ";
    NoKeyBefore(item, items);
    ValuesAreQuoted(item, items, count);
    AttributeIs(b1, "var=\"", item, " array=\"" + items + "\" count=\"" + count + "\">");
    AttributeIs(b2, "array=\"", items, " count=\"" + count + "\">");
    AttributeIs(b3, "count=\"", count, ">");
    TextOfItem(item, items, count);
    TextOfItems(item, items, count);
    TextOfCount(item, items, count);
  }

  lemma ValuesAreQuoted(item: string, items: string, count: string)
    requires LoopValue(item) && LoopValue(items) && LoopValue(count)
    ensures '"' !in item && '"' !in items && '"' !in count
    ensures IsKey("var=\"") && IsKey("array=\"") && IsKey("count=\"")
  {}

  lemma TextOfItem(item: string, items: string, count: string)
    ensures "<cloop var=\"" + item + "\" array=\"" + items + "\" count=\"" + count + "\">"
            == "<cloop " + ("var=\"" + (item + ("\"" + (" array=\"" + items + "\" count=\"" + count + "\">"))))
  {}

  lemma TextOfItems(item: string, items: string, count: string)
    ensures "<cloop var=\"" + item + "\" array=\"" + items + "\" count=\"" + count + "\">"
            == "<cloop var=\"" + item + "\" " + ("array=\"" + (items + ("\"" + (" count=\"" + count + "\">"))))
  {}

  lemma TextOfCount(item: string, items: string, count: string)
    ensures "<cloop var=\"" + item + "\" array=\"" + items + "\" count=\"" + count + "\">"
            == "<cloop var=\"" + item + "\" array=\"" + items + "\" " + ("count=\"" + (count + ("\"" + ">")))
  {}

  /** Where a key could stand: the quote at its end comes behind an equals sign, and the
      letter before that tells the keys apart. */
  lemma KeyNeedsQuote(s: string, k: nat, key: string)
    requires At(s, k, key) && IsKey(key)
    ensures var q := k + |key| - 1; q < |s| && s[q] == '"' && s[q - 1] == '=' && s[q - 2] == key[|key| - 3]
  {
    AtChar(s, k, key, |key| - 1);
    AtChar(s, k, key, |key| - 2);
    AtChar(s, k, key, |key| - 3);
  }

  lemma NoKeyBefore(item: string, items: string)
    requires LoopValue(item) && LoopValue(items)
    ensures forall k :: 0 <= k < 7 ==> !At("<cloop " + "var=\"", k, "var=\"")
    ensures var b2 := "<cloop var=\"" + item + "\" "; forall k :: 0 <= k < |b2| ==> !At(b2 + "array=\"", k, "array=\"")
    ensures var b3 := "<cloop var=\"" + item + "\" array=\"" + items + "\" ";
            forall k :: 0 <= k < |b3| ==> !At(b3 + "count=\"", k, "count=\"")
  {
    NoVarBefore();
    NoArrayBefore(item);
    NoCountBefore(item, items);
  }

  lemma NoVarBefore()
    ensures forall k :: 0 <= k < 7 ==> !At("<cloop " + "var=\"", k, "var=\"")
  {
    var s := "<cloop " + "var=\"";
    forall k | 0 <= k < 7
      ensures !At(s, k, "var=\"")
    {
      if At(s, k, "var=\"") {
        KeyNeedsQuote(s, k, "var=\"");
      }
    }
  }

  lemma NoArrayBefore(item: string)
    requires LoopValue(item)
    ensures var b := "<cloop var=\"" + item + "\" "; forall k :: 0 <= k < |b| ==> !At(b + "array=\"", k, "array=\"")
  {
    var b := "<cloop var=\"" + item + "\" ";
    var s := b + "array=\"";
    QuotesOfVar(item);
    assert forall k :: 0 <= k < |b| ==> s[k] == b[k];
    forall k | 0 <= k < |b|
      ensures !At(s, k, "array=\"")
    {
      if At(s, k, "array=\"") {
        KeyNeedsQuote(s, k, "array=\"");
      }
    }
  }

  /** The quotes of the first attribute, and what stands before them. */
  lemma QuotesOfVar(item: string)
    requires LoopValue(item)
    ensures var b := "<cloop var=\"" + item + "\" ";
            && |b| == |item| + 14 && b[10] == '=' && b[9] == 'r' && b[11] == '"' && b[12 + |item|] == '"'
            && b[13 + |item|] == ' ' && b[11 + |item|] != '='
            && forall k :: 0 <= k < |b| && b[k] == '"' ==> k == 11 || k == 12 + |item|
  {
    var b := "<cloop var=\"" + item + "\" ";
    assert b[..12] == "<cloop var=\"" && b[12..12 + |item|] == item && b[12 + |item|..] == "\" ";
    assert forall k :: 12 <= k < 12 + |item| ==> b[k] == item[k - 12];
    assert forall k :: 0 <= k < 12 ==> b[k] == "<cloop var=\""[k];
  }

  lemma NoCountBefore(item: string, items: string)
    requires LoopValue(item) && LoopValue(items)
    ensures var b := "<cloop var=\"" + item + "\" array=\"" + items + "\" ";
            forall k :: 0 <= k < |b| ==> !At(b + "count=\"", k, "count=\"")
  {
    hide LoopValue;
    var a := "<cloop var=\"" + item + "\" ";
    var c := "array=\"" + items + "\" ";
    assert "<cloop var=\"" + item + "\" array=\"" + items + "\" " == a + c;
    QuotesOfVar(item);
    QuotesOfArray(a, items);
    CountIsLast(a + c, |item|, |a|, |items|);
  }

  /** None of the four quotes has an equals sign with a `t` before it in front. */
  lemma CountIsLast(b: string, i: nat, n: nat, m: nat)
    requires n == i + 14 && |b| == n + m + 9
    requires b[9] == 'r' && b[10] == '=' && b[11 + i] != '=' && b[n + 4] == 'y' && b[n + 6 + m] != '='
    requires forall k :: 0 <= k < |b| && b[k] == '"' ==> k == 11 || k == 12 + i || k == n + 6 || k == n + 7 + m
    ensures forall k :: 0 <= k < |b| ==> !At(b + "count=\"", k, "count=\"")
  {
    var s := b + "count=\"";
    assert forall k :: 0 <= k < |b| ==> s[k] == b[k];
    forall k | 0 <= k < |b|
      ensures !At(s, k, "count=\"")
    {
      if At(s, k, "count=\"") {
        KeyNeedsQuote(s, k, "count=\"");
      }
    }
  }

  lemma QuotesOfArray(a: string, items: string)
    requires LoopValue(items)
    ensures var b := a + ("array=\"" + items + "\" ");
            var n := |a|;
            && |b| == n + |items| + 9 && b[n + 4] == 'y' && b[n + 5] == '='
            && b[n + 6 + |items|] != '='
            && (forall k :: 0 <= k < n ==> b[k] == a[k])
            && forall k :: n <= k < |b| && b[k] == '"' ==> k == n + 6 || k == n + 7 + |items|
  {
    var n := |a|;
    var c := "array=\"" + items + "\" ";
    var b := a + c;
    assert forall k :: 0 <= k < |c| ==> b[n + k] == c[k];
    assert forall k :: n <= k < |b| ==> b[k] == c[k - n];
    assert forall k :: 7 <= k < 7 + |items| ==> c[k] == items[k - 7];
    assert forall k :: 0 <= k < 7 ==> c[k] == "array=\""[k];
    assert c[7 + |items|..] == "\" ";
    assert c[7 + |items|] == '"' && c[8 + |items|] == ' ';
  }

  /** A loop tag without attributes gets the defaults. */
  lemma LoopDefaults(tag: string)
    requires '"' !in tag
    ensures LoopParamsOf(tag) == LoopParams("item", "", "")
  {
    NoKeyWithoutQuote(tag, "var=\"");
    NoKeyWithoutQuote(tag, "array=\"");
    NoKeyWithoutQuote(tag, "count=\"");
    hide Attribute;
  }

  lemma NoKeyWithoutQuote(tag: string, key: string)
    requires '"' !in tag && key != "" && key[|key| - 1] == '"'
    ensures Attribute(tag, key) == None
  {
    forall k: nat
      ensures !At(tag, k, key)
    {
      LastOfKey(tag, k, key);
    }
    hide At;
  }

  lemma LastOfKey(tag: string, k: nat, key: string)
    requires key != ""
    ensures At(tag, k, key) ==> key[|key| - 1] in tag
  {
    if At(tag, k, key) {
      AtChar(tag, k, key, |key| - 1);
    }
  }
}
