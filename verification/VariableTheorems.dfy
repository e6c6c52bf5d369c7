/** When a variable is formatted by the type its author wrote at its end. */
module VariableTheorems {
  import opened Text
  import opened Codegen

  lemma SuffixOccurs(expr: string, marker: string)
    ensures EndsWith(expr + marker, marker) && RemoveSuffix(expr + marker, marker) == expr
    ensures Contains(expr + marker, marker)
  {
    var text := expr + marker;
    assert text[|text| - |marker|..] == marker;
    assert text[|expr|..|expr| + |marker|] == marker;
    assert At(text, |expr|, marker);
    assert text[..|expr|] == expr;
  }

  /** Two markers that print alike: `:float` and `:double`. */
  predicate SameFormat(j: nat, k: nat)
    requires j < |MARKERS| && k < |MARKERS|
  {
    MARKERS[j].1 == MARKERS[k].1
  }

  /** No marker that is looked for earlier, and prints differently, occurs anywhere in the text. */
  ghost predicate NoEarlierMarker(text: string, k: nat)
    requires k < |MARKERS|
  {
    forall j :: 0 <= j < k && !SameFormat(j, k) ==> !Contains(text, MARKERS[j].0)
  }

  /** The markers are looked for anywhere in the text, so a variable `expr:type` is
      formatted by its own type, and printed without it, exactly when no other type that
      is looked for earlier occurs in the text (and `expr` does not itself end in
      `:double` when the type is `:float`). */
  lemma FormattedByOwnTypeIff(expr: string, k: nat)
    requires k < |MARKERS|
    ensures var text := expr + MARKERS[k].0;
            FormOf(text) == VarForm(MARKERS[k].1, expr)
            <==> NoEarlierMarker(text, k) && (MARKERS[k].0 == ":float" ==> !EndsWith(expr, ":double"))
  {
    hide Contains, EndsWith, RemoveSuffix, FormOf, SameFormat;
    var text := expr + MARKERS[k].0;
    SuffixOccurs(expr, MARKERS[k].0);
    FormByMarkers(text);
    if NoEarlierMarker(text, k) {
      OwnForm(text, expr, k);
      OwnSuffix(expr, k);
    } else {
      var j := FirstMarker(text, k);
      assert FormOf(text).format == MARKERS[j].1;
      DifferentFormat(j, k);
    }
  }

  lemma DifferentFormat(j: nat, k: nat)
    requires j < |MARKERS| && k < |MARKERS| && !SameFormat(j, k)
    ensures MARKERS[j].1 != MARKERS[k].1
  {}

  /** What is left of the text when the suffixes of the formats are removed. */
  lemma OwnSuffix(expr: string, k: nat)
    requires k < |MARKERS|
    ensures var text := expr + MARKERS[k].0;
            3 <= k <= 4 ==> (RemoveSuffix(RemoveSuffix(text, ":float"), ":double") == expr
                             <==> (MARKERS[k].0 == ":float" ==> !EndsWith(expr, ":double")))
    ensures !(3 <= k <= 4) ==> MARKERS[k].0 != ":float"
  {
    hide EndsWith, RemoveSuffix;
    MarkersAre();
    AfterFloat(expr);
    DoubleIsNotFloat(expr);
  }

  /** The first marker that occurs in the text, when an earlier one than k does. */
  lemma FirstMarker(text: string, k: nat) returns (j: nat)
    requires k < |MARKERS| && !NoEarlierMarker(text, k)
    ensures j < k && !SameFormat(j, k) && Contains(text, MARKERS[j].0)
    ensures forall i :: 0 <= i < j ==> !Contains(text, MARKERS[i].0)
  {
    hide Contains;
    MarkersAre();
    j := 0;
    while SameFormat(j, k) || !Contains(text, MARKERS[j].0)
      invariant j <= k < |MARKERS|
      invariant exists i :: j <= i < k && !SameFormat(i, k) && Contains(text, MARKERS[i].0)
      invariant forall i :: 0 <= i < j ==> !Contains(text, MARKERS[i].0)
      decreases k - j
    {
      j := j + 1;
    }
  }

  /** Without an earlier marker the text gets the format of marker k, and loses its suffix. */
  lemma OwnForm(text: string, expr: string, k: nat)
    requires k < |MARKERS| && NoEarlierMarker(text, k) && Contains(text, MARKERS[k].0)
    requires RemoveSuffix(text, MARKERS[k].0) == expr
    ensures FormOf(text).format == MARKERS[k].1
    ensures FormOf(text).expr == if 3 <= k <= 4 then RemoveSuffix(RemoveSuffix(text, ":float"), ":double") else expr
  {
    hide Contains, RemoveSuffix;
    MarkersAre();
    assert MARKERS[0].0 == ":int" && MARKERS[1].0 == ":long" && MARKERS[2].0 == ":size_t" && MARKERS[3].0 == ":float"
        && MARKERS[4].0 == ":double" && MARKERS[5].0 == ":number" && MARKERS[6].0 == ":bool" && MARKERS[7].0 == ":time"
        && MARKERS[8].0 == ":string" && MARKERS[9].0 == ":html";
    if k <= 4 {
    } else if k <= 6 {
    } else if k == 7 {
    } else if k == 8 {
    } else {
      assert k == 9;
    }
  }

  lemma MarkersAre()
    ensures |MARKERS| == 10
    ensures forall j, k :: 0 <= j < k < 10 ==> (SameFormat(j, k) <==> j == 3 && k == 4)
  {}

  lemma AfterFloat(expr: string)
    ensures RemoveSuffix(RemoveSuffix(expr + ":float", ":float"), ":double") == expr <==> !EndsWith(expr, ":double")
  {
    SuffixOccurs(expr, ":float");
  }

  lemma EndsWithLast(s: string, suffix: string)
    requires EndsWith(s, suffix) && suffix != ""
    ensures s != "" && s[|s| - 1] == suffix[|suffix| - 1]
  {
    assert s[|s| - |suffix|..][|suffix| - 1] == s[|s| - 1];
  }

  lemma DoubleIsNotFloat(expr: string)
    ensures RemoveSuffix(RemoveSuffix(expr + ":double", ":float"), ":double") == expr
  {
    var text := expr + ":double";
    SuffixOccurs(expr, ":double");
    EndsWithLast(text, ":double");
    if EndsWith(text, ":float") {
      EndsWithLast(text, ":float");
    }
  }

  /** The format a text gets is that of the first marker that occurs in it. */
  lemma FormByMarkers(text: string)
    ensures forall k ::
              0 <= k < |MARKERS| && Contains(text, MARKERS[k].0)
                && (forall j :: 0 <= j < k ==> !Contains(text, MARKERS[j].0))
              ==> FormOf(text).format == MARKERS[k].1
    ensures FormOf(text).format == FPlain <==> forall k :: 0 <= k < |MARKERS| ==> !Contains(text, MARKERS[k].0)
    ensures FormOf(text).format == FPlain ==> FormOf(text).expr == text
  {
    hide Contains, RemoveSuffix;
    assert MARKERS[0].0 == ":int" && MARKERS[1].0 == ":long" && MARKERS[2].0 == ":size_t" && MARKERS[3].0 == ":float"
        && MARKERS[4].0 == ":double" && MARKERS[5].0 == ":number" && MARKERS[6].0 == ":bool" && MARKERS[7].0 == ":time"
        && MARKERS[8].0 == ":string" && MARKERS[9].0 == ":html";
  }

  /** A string variable that is printed as an integer, because its expression happens
      to contain the earlier marker. */
  lemma MisreadExample()
    ensures FormOf("b?x:internal:string").format == FInt
  {
    var text := "b?x:internal:string";
    assert text[3..7] == ":int";
    assert At(text, 3, ":int");
    assert Contains(text, ":int");
    hide Contains;
  }
}
