/** What a minifier may do to a text: the text is cut into pieces, some kept and some
    gaps; every kept piece is printed as it is, in order, and a gap becomes nothing or
    one separator. */
module Weave {
  import opened Text

  datatype Piece = Keep(text: string) | Gap(text: string)

  /** The text the pieces were cut from. */
  function Source(ps: seq<Piece>): string {
    if ps == [] then "" else ps[0].text + Source(ps[1..])
  }

  predicate Weaves(ps: seq<Piece>, out: string) {
    if ps == [] then out == ""
    else if ps[0].Keep? then ps[0].text <= out && Weaves(ps[1..], out[|ps[0].text|..])
    else Weaves(ps[1..], out) || (out != "" && out[0] in " \n" && Weaves(ps[1..], out[1..]))
  }

  /** Every gap is blank or a comment: `comment` is told the text of the gap and the text
      behind it. */
  ghost predicate Blank(ps: seq<Piece>, comment: (string, string) -> bool) {
    ps != [] ==>
      && (ps[0].Gap? ==> AllSpace(ps[0].text) || comment(ps[0].text, Source(ps[1..])))
      && Blank(ps[1..], comment)
  }

  lemma {:induction false} WeavesConcat(ps: seq<Piece>, a: string, qs: seq<Piece>, b: string)
    requires Weaves(ps, a) && Weaves(qs, b)
    ensures Weaves(ps + qs, a + b)
  {
    if ps == [] {
      assert ps + qs == qs && a + b == b;
    } else {
      assert (ps + qs)[1..] == ps[1..] + qs && (ps + qs)[0] == ps[0];
      if ps[0].Keep? {
        var n := |ps[0].text|;
        assert (a + b)[n..] == a[n..] + b && (a + b)[..n] == a[..n];
        WeavesConcat(ps[1..], a[n..], qs, b);
      } else if Weaves(ps[1..], a) {
        WeavesConcat(ps[1..], a, qs, b);
      } else {
        assert (a + b)[1..] == a[1..] + b;
        WeavesConcat(ps[1..], a[1..], qs, b);
      }
    }
  }

  lemma {:induction false} SourceConcat(ps: seq<Piece>, qs: seq<Piece>)
    ensures Source(ps + qs) == Source(ps) + Source(qs)
  {
    if ps == [] {
      assert ps + qs == qs;
    } else {
      assert (ps + qs)[1..] == ps[1..] + qs;
      SourceConcat(ps[1..], qs);
    }
  }

  lemma WeavesKeep(t: string, qs: seq<Piece>, out: string)
    requires Weaves(qs, out)
    ensures Weaves([Keep(t)] + qs, t + out)
  {
    assert ([Keep(t)] + qs)[1..] == qs && (t + out)[|t|..] == out;
  }

  lemma WeavesGap(t: string, sep: string, qs: seq<Piece>, out: string)
    requires Weaves(qs, out) && sep in {"", " ", "\n"}
    ensures Weaves([Gap(t)] + qs, sep + out)
  {
    assert ([Gap(t)] + qs)[1..] == qs;
    if sep == "" {
      assert sep + out == out;
    } else {
      assert (sep + out)[1..] == out;
    }
  }

  lemma SourceCons(p: Piece, qs: seq<Piece>)
    ensures Source([p] + qs) == p.text + Source(qs)
  {
    assert ([p] + qs)[1..] == qs;
  }

  function Visible(s: string): string {
    if s == "" then ""
    else (if IsSpace(s[0]) then "" else [s[0]]) + Visible(s[1..])
  }

  /** The kept text. */
  function Kept(ps: seq<Piece>): string {
    if ps == [] then "" else (if ps[0].Keep? then ps[0].text else "") + Kept(ps[1..])
  }

  lemma {:induction false} VisibleConcat(a: string, b: string)
    ensures Visible(a + b) == Visible(a) + Visible(b)
  {
    if a == "" {
      assert a + b == b;
    } else {
      assert (a + b)[1..] == a[1..] + b;
      VisibleConcat(a[1..], b);
    }
  }

  /** A weaving holds exactly the visible characters of the kept pieces. */
  lemma {:induction false} WeavingKeepsVisible(ps: seq<Piece>, out: string)
    requires Weaves(ps, out)
    ensures Visible(out) == Visible(Kept(ps))
  {
    if ps != [] {
      if ps[0].Keep? {
        var n := |ps[0].text|;
        assert out == ps[0].text + out[n..];
        VisibleConcat(ps[0].text, out[n..]);
        VisibleConcat(ps[0].text, Kept(ps[1..]));
        WeavingKeepsVisible(ps[1..], out[n..]);
      } else {
        assert "" + Kept(ps[1..]) == Kept(ps[1..]);
        if Weaves(ps[1..], out) {
          WeavingKeepsVisible(ps[1..], out);
        } else {
          WeavingKeepsVisible(ps[1..], out[1..]);
        }
      }
    }
  }

  lemma {:induction false} TrimKeepsVisible(s: string)
    ensures Visible(TrimRight(s)) == Visible(s)
  {
    if s != "" && IsSpace(s[|s| - 1]) {
      var n := |s| - 1;
      assert s == s[..n] + [s[n]];
      VisibleConcat(s[..n], [s[n]]);
      TrimKeepsVisible(s[..n]);
      assert [s[n]][1..] == "";
    }
  }

  // ---------------------------------------------------------------- words apart

  /** A weaving in which words stay apart: when two characters of words have a gap
      between them, a separator is printed for it. `left` is the last kept character;
      `gap` and `sep` say whether a gap and a separator came after it. */
  predicate Apart(ps: seq<Piece>, out: string, left: char, gap: bool, sep: bool, word: char -> bool) {
    if ps == [] then out == ""
    else if ps[0].Gap? then
      Apart(ps[1..], out, left, true, sep, word)
      || (out != "" && out[0] in " \n" && Apart(ps[1..], out[1..], left, true, true, word))
    else
      && ps[0].text != "" && ps[0].text <= out
      && (gap && word(left) && word(ps[0].text[0]) ==> sep)
      && Apart(ps[1..], out[|ps[0].text|..], ps[0].text[|ps[0].text| - 1], false, false, word)
  }

  /** Fewer words stay apart as well. */
  lemma {:induction false} ApartWeaker(ps: seq<Piece>, out: string, left: char, gap: bool, sep: bool,
      word: char -> bool, fewer: char -> bool)
    requires Apart(ps, out, left, gap, sep, word) && forall c :: fewer(c) ==> word(c)
    ensures Apart(ps, out, left, gap, sep, fewer)
  {
    if ps == [] {
    } else if ps[0].Keep? {
      var n := |ps[0].text|;
      ApartWeaker(ps[1..], out[n..], ps[0].text[n - 1], false, false, word, fewer);
    } else if Apart(ps[1..], out, left, true, sep, word) {
      ApartWeaker(ps[1..], out, left, true, sep, word, fewer);
    } else {
      ApartWeaker(ps[1..], out[1..], left, true, true, word, fewer);
    }
  }

  lemma {:induction false} ApartIsWoven(ps: seq<Piece>, out: string, left: char, gap: bool, sep: bool,
      word: char -> bool)
    requires Apart(ps, out, left, gap, sep, word)
    ensures Weaves(ps, out)
  {
    if ps == [] {
    } else if ps[0].Keep? {
      var n := |ps[0].text|;
      ApartIsWoven(ps[1..], out[n..], ps[0].text[n - 1], false, false, word);
    } else if Apart(ps[1..], out, left, true, sep, word) {
      ApartIsWoven(ps[1..], out, left, true, sep, word);
    } else {
      ApartIsWoven(ps[1..], out[1..], left, true, true, word);
    }
  }

  lemma KeepApart(t: string, qs: seq<Piece>, out: string, left: char, gap: bool, sep: bool, word: char -> bool)
    requires t != "" && (gap && word(left) && word(t[0]) ==> sep)
    requires Apart(qs, out, t[|t| - 1], false, false, word)
    ensures Apart([Keep(t)] + qs, t + out, left, gap, sep, word)
  {
    assert ([Keep(t)] + qs)[1..] == qs && (t + out)[|t|..] == out && (t + out)[..|t|] == t;
  }

  lemma GapApart(t: string, separator: string, qs: seq<Piece>, out: string, left: char, gap: bool, sep: bool,
      word: char -> bool)
    requires separator in {"", " ", "\n"}
    requires Apart(qs, out, left, true, sep || separator != "", word)
    ensures Apart([Gap(t)] + qs, separator + out, left, gap, sep, word)
  {
    assert ([Gap(t)] + qs)[1..] == qs;
    if separator == "" {
      assert separator + out == out;
    } else {
      assert (separator + out)[1..] == out;
    }
  }

  // ------------------------------------------------------------------ comments

  /** The length of a block comment after its opening, with its end. */
  function BlockEnd(s: string): (n: Option<nat>)
    ensures n.Some? ==> 0 < n.value <= |s|
  {
    if |s| < 2 then None
    else if s[0] == '*' && s[1] == '/' then Some(2)
    else After(1, BlockEnd(s[1..]))
  }

  lemma BlockEndStep(s: string)
    requires s != ""
    ensures BlockEnd(s) == if s[0] == '*' && CharAt(s, 1) == '/' then Some(2) else After(1, BlockEnd(s[1..]))
    ensures BlockEnd("") == None
  {}

  function After(k: nat, n: Option<nat>): Option<nat> {
    if n.None? then None else Some(k + n.value)
  }

  function CommentLength(s: string, end: Option<nat>): (n: nat)
    requires |s| >= 2 && (end.Some? ==> end.value <= |s| - 2)
    ensures 2 <= n <= |s|
  {
    if end.Some? then 2 + end.value else |s|
  }

  predicate ClosesBlock(s: string, k: int) {
    0 <= k && k + 1 < |s| && s[k] == '*' && s[k + 1] == '/'
  }

  /** A block comment: it ends with the first closing in it, or is not closed and last. */
  predicate IsBlockComment(t: string, behind: string) {
    && 2 <= |t| && t[0] == '/' && t[1] == '*'
    && (forall k :: 2 <= k < |t| - 2 ==> !ClosesBlock(t, k))
    && ((4 <= |t| && ClosesBlock(t, |t| - 2)) || behind == "")
  }

  lemma {:induction false} BlockEndIsFirst(s: string)
    ensures var n := BlockEnd(s);
            if n.Some? then 2 <= n.value && ClosesBlock(s, n.value - 2)
              && forall k :: 0 <= k < n.value - 2 ==> !ClosesBlock(s, k)
            else forall k :: 0 <= k < |s| ==> !ClosesBlock(s, k)
  {
    if |s| >= 2 && !(s[0] == '*' && s[1] == '/') {
      BlockEndIsFirst(s[1..]);
      assert forall k :: 0 < k < |s| ==> ClosesBlock(s, k) == ClosesBlock(s[1..], k - 1);
    }
  }

  /** The end of a closed comment is found whatever stands behind it. */
  lemma CommentEnd(comment: string, r: string)
    requires IsBlockComment(comment, r) && 4 <= |comment| && ClosesBlock(comment, |comment| - 2)
    ensures BlockEnd((comment + r)[2..]) == Some(|comment| - 2)
  {
    var t := (comment + r)[2..];
    BlockEndIsFirst(t);
    forall k | 0 <= k < |comment| - 3
      ensures ClosesBlock(t, k) == (k == |comment| - 4)
    {
      assert ClosesBlock(t, k) == ClosesBlock(comment, k + 2);
    }
    assert ClosesBlock(t, |comment| - 4);
    hide BlockEnd;
  }

  /** What the minifiers cut as a block comment is one. */
  lemma BlockCommentIsCut(s: string)
    requires |s| >= 2 && s[0] == '/' && s[1] == '*'
    ensures var n := CommentLength(s, BlockEnd(s[2..])); IsBlockComment(s[..n], s[n..])
  {
    var n := CommentLength(s, BlockEnd(s[2..]));
    BlockEndIsFirst(s[2..]);
    hide BlockEnd;
    assert forall k :: 2 <= k < n - 1 ==> ClosesBlock(s[..n], k) == ClosesBlock(s[2..], k - 2);
  }
}
