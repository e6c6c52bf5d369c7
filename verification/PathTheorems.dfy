/** Normalising a path, and what the rest of the program sees of it. */
module PathTheorems {
  import opened Text
  import opened PathUtils

  // --------------------------------------------------------------------- idempotence

  /** No two slashes in a row. */
  predicate Single(s: string) {
    forall k :: 0 <= k < |s| - 1 ==> !(s[k] == '/' && s[k + 1] == '/')
  }

  lemma SingleCons(c: char, r: string)
    requires Single(r) && !(c == '/' && r != "" && r[0] == '/')
    ensures Single([c] + r)
  {
    var s := [c] + r;
    forall k | 0 <= k < |s| - 1
      ensures !(s[k] == '/' && s[k + 1] == '/')
    {
      assert k > 0 ==> s[k] == r[k - 1] && s[k + 1] == r[k];
    }
  }

  lemma {:induction false} CollapseIsSingle(s: string)
    ensures Single(Collapse(s))
    decreases |s|
  {
    CollapseStep(s);
    if s != "" {
      var rest := if s[0] == '/' then SkipSlashes(s[1..]) else s[1..];
      CollapseIsSingle(rest);
      SingleCons(s[0], Collapse(rest));
    }
  }

  lemma SingleTail(s: string)
    requires Single(s) && s != ""
    ensures Single(s[1..])
  {
    var t := s[1..];
    forall k | 0 <= k < |t| - 1
      ensures !(t[k] == '/' && t[k + 1] == '/')
    {
      assert t[k] == s[k + 1] && t[k + 1] == s[k + 2];
    }
  }

  lemma {:induction false} SingleIsCollapsed(s: string)
    requires Single(s)
    ensures Collapse(s) == s
  {
    if s != "" {
      SingleTail(s);
      SingleIsCollapsed(s[1..]);
      assert s == [s[0]] + s[1..];
      if s[0] == '/' {
        SkipStep(s[1..]);
      }
    }
  }

  /** Normalising twice is normalising once. */
  lemma NormalizeIsIdempotent(s: string)
    ensures Normalize(Normalize(s)) == Normalize(s)
  {
    hide Collapse;
    var r := Collapse(s);
    CollapseIsSingle(s);
    var n := DropSlash(r);
    assert Single(n);
    SingleIsCollapsed(n);
    if |r| > 1 && r[|r| - 1] == '/' {
      assert r[|r| - 2] != '/';
    }
  }

  // ------------------------------------------------------------------------ segments

  /** The text between slashes, whole. */
  function Segments(s: string): (r: seq<string>)
    ensures forall k :: 0 <= k < |r| ==> r[k] != ""
    decreases |s|
  {
    if s == "" then []
    else if s[0] == '/' then Segments(s[1..])
    else [s[..Run(s)]] + Segments(s[Run(s)..])
  }

  predicate EndsInSlash(s: string) {
    s != "" && s[|s| - 1] == '/'
  }

  /** A segment that no slash ends is read in pieces of the size of the buffer. */
  function Pieces(segment: string): (r: seq<string>)
    requires segment != ""
    ensures r != [] && r[0] == Truncated(segment)
    decreases |segment|
  {
    if |segment| < MAX_PATH_LEN then [segment]
    else [segment[..MAX_PATH_LEN - 1]] + Pieces(segment[MAX_PATH_LEN - 1..])
  }

  function Take(s: seq<string>, max: nat): seq<string> {
    if |s| <= max then s else s[..max]
  }

  /** All the segments that splitting can give. */
  function Read(segments: seq<string>, ended: bool): seq<string>
    requires forall k :: 0 <= k < |segments| ==> segments[k] != ""
  {
    if segments == [] then []
    else if |segments| == 1 && !ended then Pieces(segments[0])
    else [Truncated(segments[0])] + Read(segments[1..], ended)
  }

  lemma {:induction false} SegmentsSkip(s: string)
    ensures Segments(SkipSlashes(s)) == Segments(s)
    ensures SkipSlashes(s) == "" ==> Segments(s) == []
    ensures SkipSlashes(s) != "" ==> EndsInSlash(SkipSlashes(s)) == EndsInSlash(s)
  {
    hide EndsInSlash;
    if s != "" && s[0] == '/' {
      SlashInFront(s);
      SegmentsSkip(s[1..]);
      hide Segments, SkipSlashes;
    } else {
      assert SkipSlashes(s) == s;
    }
  }

  lemma SlashInFront(s: string)
    requires s != "" && s[0] == '/'
    ensures Segments(s) == Segments(s[1..]) && SkipSlashes(s) == SkipSlashes(s[1..])
    ensures s[1..] != "" ==> EndsInSlash(s[1..]) == EndsInSlash(s)
    ensures s[1..] == "" ==> SkipSlashes(s) == ""
  {}

  lemma {:induction false} PlainSegments(s: string)
    requires s != "" && '/' !in s
    ensures Segments(s) == [s]
  {
    assert Run(s) == |s| by {
      RunIs(s, |s|);
    }
    assert s[..|s|] == s && s[|s|..] == "";
    assert s[0] in s;
  }

  /** Splitting gives the first segments, cut to their buffers. */
  lemma {:induction false} SplitReads(s: string, max: nat)
    ensures Split(s, max) == Take(Read(Segments(s), EndsInSlash(s)), max)
    decreases |s|, 2
  {
    if s == "" || max == 0 {
      SplitEnds(s, max);
    } else {
      SplitSkip(s, max);
      SegmentsSkip(s);
      var p := SkipSlashes(s);
      hide Split, SkipSlashes;
      if p == "" {
        SplitEnds("", max);
        TakeNone(max);
      } else {
        SplitSegment(p, max);
      }
    }
  }

  lemma SplitSkip(s: string, max: nat)
    ensures Split(SkipSlashes(s), max) == Split(s, max)
  {
    if s != "" && max > 0 {
      SplitStep(s, max);
      if SkipSlashes(s) != "" {
        SplitStep(SkipSlashes(s), max);
        SkipStep(SkipSlashes(s));
      }
    }
    hide SkipSlashes;
  }

  lemma {:induction false} SplitSegment(p: string, max: nat)
    requires p != "" && p[0] != '/' && max > 0
    ensures Split(p, max) == Take(Read(Segments(p), EndsInSlash(p)), max)
    decreases |p|, 1
  {
    hide Split, Read, Segments, Truncated, EndsInSlash, Take;
    if Run(p) < |p| {
      EndedSegment(p, max);
    } else {
      assert p[..|p|] == p;
      LastSegment(p, max);
    }
  }

  lemma {:induction false} EndedSegment(p: string, max: nat)
    requires p != "" && p[0] != '/' && max > 0 && Run(p) < |p|
    ensures Split(p, max) == Take(Read(Segments(p), EndsInSlash(p)), max)
    decreases |p|, 0
  {
    hide Split, Read, Segments, Truncated, Run, EndsInSlash, Take, Behind, SkipSlashes;
    RunPieces(p);
    var rest, segment := p[Run(p)..], p[..Run(p)];
    SplitStep(p, max);
    SkipStep(p);
    assert Split(p, max) == [Truncated(segment)] + Split(rest, max - 1);
    SplitReads(rest, max - 1);
    SlashFirst(rest);
    AppendSegment(segment, Segments(rest), EndsInSlash(p), max);
  }

  lemma AppendSegment(segment: string, more: seq<string>, ended: bool, max: nat)
    requires segment != "" && max > 0 && (forall k :: 0 <= k < |more| ==> more[k] != "") && (more != [] || ended)
    ensures [Truncated(segment)] + Take(Read(more, ended), max - 1) == Take(Read([segment] + more, ended), max)
  {
    ReadMore(segment, more, ended);
    hide Read, Truncated;
    TakeMore(Truncated(segment), Read(more, ended), max);
  }

  lemma RunPieces(p: string)
    requires p != "" && p[0] != '/' && Run(p) < |p|
    ensures var rest := p[Run(p)..];
            Run(p) > 0 && rest[0] == '/' && Segments(p) == [p[..Run(p)]] + Segments(rest)
            && EndsInSlash(rest) == EndsInSlash(p) && Behind(p) == rest
  {
    SegmentsOfRun(p);
    hide Segments, Run, Truncated, EndsInSlash;
    RunStops(p);
    TailEnds(p, Run(p));
  }

  lemma RunStops(p: string)
    requires p != "" && p[0] != '/'
    ensures Run(p) > 0 && (Run(p) < |p| ==> p[Run(p)] == '/')
  {}

  lemma TailEnds(p: string, n: nat)
    requires n < |p|
    ensures EndsInSlash(p[n..]) == EndsInSlash(p) && p[n..][0] == p[n]
  {}

  /** What follows a segment starts with a slash: it is ended, or holds another segment. */
  lemma SlashFirst(rest: string)
    requires rest != "" && rest[0] == '/'
    ensures Segments(rest) == [] ==> EndsInSlash(rest)
  {
    SegmentsSkip(rest);
    AllSlashes(rest);
  }

  lemma {:induction false} AllSlashes(s: string)
    ensures s != "" && Segments(s) == [] ==> EndsInSlash(s)
  {
    if s != "" && s[0] == '/' && s[1..] != "" {
      AllSlashes(s[1..]);
    }
  }

  lemma ReadMore(segment: string, more: seq<string>, ended: bool)
    requires segment != "" && (forall k :: 0 <= k < |more| ==> more[k] != "")
    ensures more != [] || ended ==> Read([segment] + more, ended) == [Truncated(segment)] + Read(more, ended)
  {
    assert ([segment] + more)[1..] == more;
  }

  lemma TakeMore(x: string, r: seq<string>, max: nat)
    requires max > 0
    ensures [x] + Take(r, max - 1) == Take([x] + r, max)
  {}

  /** A segment at the end of the path is read in pieces. */
  lemma {:induction false} SplitPieces(p: string, max: nat)
    requires p != "" && '/' !in p
    ensures Split(p, max) == Take(Pieces(p), max)
    decreases |p|
  {
    hide Split, Take, Truncated, Pieces, Run;
    if max == 0 {
      SplitEnds(p, 0);
      TakeZero(Pieces(p));
    } else {
      SplitStep(p, max);
      assert p[0] in p;
      SkipStep(p);
      RunIs(p, |p|);
      assert p[..|p|] == p;
      PiecesStep(p);
      var rest := p[|Truncated(p)|..];
      if rest == "" {
        SplitEnds("", max - 1);
        TakeNone(max - 1);
        TakeMore(Truncated(p), [], max);
      } else {
        NoSlashTail(p, rest);
        SplitPieces(rest, max - 1);
        TakeMore(Truncated(p), Pieces(rest), max);
      }
    }
  }

  lemma TakeZero(s: seq<string>)
    ensures Take(s, 0) == []
  {}

  lemma LastSegment(p: string, max: nat)
    requires p != "" && '/' !in p && max > 0
    ensures Split(p, max) == Take(Read(Segments(p), false), max) && !EndsInSlash(p)
  {
    SplitPieces(p, max);
    PlainSegments(p);
    assert Read([p], false) == Pieces(p);
    assert p[|p| - 1] in p;
  }

  lemma TakeNone(max: nat)
    ensures Take([], max) == []
  {}

  lemma NoSlashTail(p: string, rest: string)
    requires '/' !in p && rest != "" && |rest| <= |p| && rest == p[|p| - |rest|..]
    ensures '/' !in rest && !EndsInSlash(rest)
  {
    assert forall c :: c in rest ==> c in p;
    assert rest[|rest| - 1] in rest;
  }

  lemma PiecesStep(p: string)
    requires p != ""
    ensures |Truncated(p)| <= |p|
    ensures var rest := p[|Truncated(p)|..]; Pieces(p) == [Truncated(p)] + if rest == "" then [] else Pieces(rest)
  {}

  // -------------------------------------------------------- normalising and splitting

  lemma {:induction false} SegmentsOfRun(s: string)
    requires s != "" && s[0] != '/'
    ensures Segments(s) == [s[..Run(s)]] + Segments(s[Run(s)..])
  {}

  /** Collapsing slashes keeps the segments and the slash at the end. */
  lemma {:induction false} CollapseKeepsSegments(s: string)
    ensures Segments(Collapse(s)) == Segments(s) && EndsInSlash(Collapse(s)) == EndsInSlash(s)
    decreases |s|
  {
    CollapseStep(s);
    if s == "" {
    } else if s[0] == '/' {
      var rest := SkipSlashes(s[1..]);
      CollapseKeepsSegments(rest);
      SegmentsSkip(s[1..]);
      AllSlashes(s);
      hide Collapse;
      assert (['/'] + Collapse(rest))[1..] == Collapse(rest);
      assert s[1..] != "" ==> EndsInSlash(s[1..]) == EndsInSlash(s);
    } else {
      CollapseKeepsSegments(s[1..]);
      CollapseKeepsRun(s);
      var n := Run(s);
      CollapseKeepsSegments(s[n..]);
      hide Collapse, Run, Segments;
      var c := Collapse(s);
      SegmentsOfRun(s);
      SegmentsOfRun(c);
      assert c == [s[0]] + Collapse(s[1..]);
      assert s[1..] != "" ==> EndsInSlash(s[1..]) == EndsInSlash(s);
    }
  }

  lemma {:induction false} CollapseKeepsRun(s: string)
    ensures var n := Run(s);
            Run(Collapse(s)) == n && |Collapse(s)| >= n && Collapse(s)[..n] == s[..n]
              && Collapse(s)[n..] == Collapse(s[n..])
  {
    if s != "" && s[0] != '/' {
      CollapseStep(s);
      CollapseKeepsRun(s[1..]);
      hide Collapse;
      ConsRun(s[0], Run(s[1..]), s[1..], Collapse(s[1..]));
      assert s == [s[0]] + s[1..];
    }
  }

  lemma ConsRun(c: char, n: nat, s: string, r: string)
    requires n <= |s| && n <= |r| && r[..n] == s[..n]
    ensures ([c] + r)[1..] == r && ([c] + s)[1..] == s && ([c] + r)[..n + 1] == ([c] + s)[..n + 1]
    ensures ([c] + r)[n + 1..] == r[n..] && ([c] + s)[n + 1..] == s[n..]
  {
    assert ([c] + r)[..n + 1] == [c] + r[..n] && ([c] + s)[..n + 1] == [c] + s[..n];
  }

  lemma {:induction false} SegmentsDropSlash(s: string)
    requires EndsInSlash(s)
    ensures Segments(s[..|s| - 1]) == Segments(s)
    decreases |s|
  {
    var t := s[..|s| - 1];
    if s[0] == '/' {
      if t != "" {
        assert t[1..] == s[1..][..|s[1..]| - 1];
        SegmentsDropSlash(s[1..]);
      } else {
        assert s[1..] == "";
      }
    } else {
      var n := Run(s);
      assert n < |s| by {
        assert s[..|s|][|s| - 1] == '/';
      }
      assert s[..n] == t[..n];
      RunIs(t, n);
      assert t[n..] == s[n..][..|s[n..]| - 1];
      SegmentsDropSlash(s[n..]);
    }
  }

  lemma NormalizeKeepsSegments(s: string)
    ensures Segments(Normalize(s)) == Segments(s)
    ensures EndsInSlash(Normalize(s)) ==> Segments(s) == []
  {
    hide Collapse, Segments;
    var r := Collapse(s);
    CollapseKeepsSegments(s);
    CollapseIsSingle(s);
    if |r| > 1 && r[|r| - 1] == '/' {
      SegmentsDropSlash(r);
      assert r[|r| - 2] != '/';
    } else if EndsInSlash(r) {
      OnlySlash(r);
    }
  }

  lemma OnlySlash(s: string)
    requires |s| == 1 && s[0] == '/'
    ensures Segments(s) == []
  {
    assert s[1..] == "";
  }

  /** What the slash at the end changes: the rest of an over-long last segment. */
  lemma {:induction false} EndedReads(segments: seq<string>)
    requires forall k :: 0 <= k < |segments| ==> segments[k] != ""
    ensures var whole, cut := Read(segments, false), Read(segments, true);
            && |cut| == |segments| && cut <= whole
            && (cut == whole <==> segments == [] || |segments[|segments| - 1]| < MAX_PATH_LEN)
  {
    if |segments| == 1 {
      assert segments[1..] == [];
      LongPieces(segments[0]);
    } else if segments != [] {
      EndedReads(segments[1..]);
      var x, whole, cut := Truncated(segments[0]), Read(segments[1..], false), Read(segments[1..], true);
      assert ([x] + whole)[1..] == whole && ([x] + cut)[1..] == cut;
    }
  }

  lemma LongPieces(segment: string)
    requires segment != ""
    ensures |Pieces(segment)| == 1 <==> |segment| < MAX_PATH_LEN
  {}

  /** Splitting the normalised path gives what splitting the path gives, except when a
      slash ends a last segment that is too long for its buffer and there is room for
      more: only then the normalised path yields the rest of that segment too. */
  lemma NormalizeKeepsSplit(s: string, max: nat)
    ensures var segments := Segments(s);
            Split(Normalize(s), max) == Split(s, max)
            <==> !(EndsInSlash(s) && segments != [] && |segments[|segments| - 1]| >= 256 && |segments| < max)
  {
    hide Split, Normalize, Read, EndsInSlash, Segments;
    var segments := Segments(s);
    SplitReads(s, max);
    SplitReads(Normalize(s), max);
    NormalizeKeepsSegments(s);
    EndedReads(segments);
    assert segments == [] ==> Read(segments, true) == Read(segments, false) by {
      NoReads();
    }
    var whole, cut := Read(segments, false), Read(segments, true);
    if cut != whole {
      assert |whole| > |cut|;
      assert max <= |segments| ==> Take(whole, max) == Take(cut, max);
      assert max > |segments| ==> |Take(whole, max)| > |Take(cut, max)|;
    }
  }

  lemma NoReads()
    ensures Read([], true) == Read([], false) == []
  {}

  lemma LongSegmentSplits(word: string)
    requires |word| >= MAX_PATH_LEN && '/' !in word
    ensures Split(Normalize(word + "/"), MAX_SEGMENTS) != Split(word + "/", MAX_SEGMENTS)
  {
    hide Split, Normalize, Segments;
    var s := word + "/";
    assert s[|s| - 1] == '/' && s[..|s| - 1] == word;
    PlainSegments(word);
    SegmentsDropSlash(s);
    NormalizeKeepsSplit(s, MAX_SEGMENTS);
  }

  /** A path of one segment of 300 characters and a slash: it splits in one way, and its
      normalised form in another. */
  lemma LongSegmentExample()
    ensures var s := seq(300, _ => 'a') + "/"; Split(Normalize(s), MAX_SEGMENTS) != Split(s, MAX_SEGMENTS)
  {
    hide Split, Normalize, Segments;
    LongSegmentSplits(seq(300, _ => 'a'));
  }

  /** Patterns and paths whose segments fit their buffers match the same before and after
      normalising either. */
  lemma NormalizeKeepsMatches(pattern: string, path: string)
    requires forall k :: 0 <= k < |Segments(pattern)| ==> |Segments(pattern)[k]| < MAX_PATH_LEN
    requires forall k :: 0 <= k < |Segments(path)| ==> |Segments(path)[k]| < MAX_PATH_LEN
    ensures MatchesFrom(Split(Normalize(pattern), MAX_SEGMENTS), Split(Normalize(path), MAX_SEGMENTS), 0)
            == MatchesFrom(Split(pattern, MAX_SEGMENTS), Split(path, MAX_SEGMENTS), 0)
  {
    hide Split, Normalize, Segments, MatchesFrom;
    NormalizeKeepsSplit(pattern, MAX_SEGMENTS);
    NormalizeKeepsSplit(path, MAX_SEGMENTS);
  }

  /** A normalised path has no two slashes in a row and none at its end; it keeps the
      segments, and the slash at the start. */
  lemma NormalForm(s: string)
    ensures var r := Normalize(s);
            && Single(r) && (|r| > 1 ==> r[|r| - 1] != '/') && Segments(r) == Segments(s)
            && (r == "" <==> s == "") && (s != "" ==> (r[0] == '/' <==> s[0] == '/'))
  {
    NormalizeKeepsSegments(s);
    CollapseIsSingle(s);
    CollapseStep(s);
    var c := Collapse(s);
    hide Collapse, Segments;
    if |c| > 1 && c[|c| - 1] == '/' {
      assert c[|c| - 2] != '/';
    }
  }

  // ------------------------------------------------------------------------ matching

  /** The first n segments agree: each of the pattern is a parameter or the segment itself. */
  predicate Agree(pattern: seq<string>, path: seq<string>, n: nat)
    requires n <= |pattern| && n <= |path|
  {
    forall j :: 0 <= j < n ==> (pattern[j] != "" && pattern[j][0] == ':') || pattern[j] == path[j]
  }

  /** A star stands at segment k, where the path still has one. */
  predicate StarAt(pattern: seq<string>, path: seq<string>, k: nat) {
    k < |pattern| && k < |path| && pattern[k] == "*" && Agree(pattern, path, k)
  }

  lemma {:induction false} MatchesFromIff(pattern: seq<string>, path: seq<string>, i: nat)
    requires i <= |pattern| && i <= |path| && Agree(pattern, path, i)
    ensures MatchesFrom(pattern, path, i)
            <==> (exists k: nat :: i <= k && StarAt(pattern, path, k))
                 || (|pattern| == |path| && Agree(pattern, path, |path|))
    decreases |pattern| - i
  {
    if i < |pattern| && i < |path| {
      if pattern[i] == "*" {
        assert StarAt(pattern, path, i);
      } else if (pattern[i] != "" && pattern[i][0] == ':') || pattern[i] == path[i] {
        MatchesFromIff(pattern, path, i + 1);
      } else {
        assert forall n :: i < n <= |pattern| && n <= |path| ==> !Agree(pattern, path, n);
      }
    }
  }

  /** A path matches exactly when it agrees with the pattern segment by segment, up to a
      star that stands for one or more segments, or up to the end of both. */
  lemma MatchesIff(pattern: string, path: string)
    ensures var ps, qs := Split(pattern, 16), Split(path, 16);
            MatchesFrom(ps, qs, 0)
            <==> (exists k: nat :: StarAt(ps, qs, k)) || (|ps| == |qs| && Agree(ps, qs, |qs|))
  {
    hide Split, StarAt;
    MatchesFromIff(Split(pattern, 16), Split(path, 16), 0);
  }
}
