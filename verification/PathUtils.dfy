/** URL paths: the base of a route, segments, and normalisation in place. */
module PathUtils {
  import opened Text
  import opened Escape

  const MAX_PATH_LEN: nat := 256

  /** strchr(s + p, c) */
  function FindChar(s: string, p: nat, c: char): (r: Option<nat>)
    ensures r.Some? ==> p <= r.value < |s| && s[r.value] == c && c !in s[p..r.value]
    ensures r.None? && p <= |s| ==> c !in s[p..]
    decreases |s| - p
  {
    if p >= |s| then None
    else if s[p] == c then Some(p)
    else
      var r := FindChar(s, p + 1, c);
      assert r.Some? ==> s[p..r.value] == [s[p]] + s[p + 1..r.value];
      assert s[p..] == [s[p]] + s[p + 1..];
      r
  }

  /** cweb_get_route_base: up to the second slash or the question mark. */
  function RouteBase(path: string): string {
    var param := FindChar(path, 0, '?');
    var second := if path != "" && path[0] == '/' then FindChar(path, 1, '/') else None;
    var end :=
      if param.Some? && second.Some? then (if param.value < second.value then param.value else second.value)
      else if param.Some? then param.value
      else if second.Some? then second.value
      else |path|;
    path[..end]
  }

  // ------------------------------------------------------------------------ segments

  /** The length of the text before the next slash. */
  function Run(s: string): (n: nat)
    ensures n <= |s| && '/' !in s[..n] && (n < |s| ==> s[n] == '/')
  {
    if s == "" || s[0] == '/' then 0
    else
      var n := Run(s[1..]);
      assert s[..n + 1] == [s[0]] + s[1..][..n];
      n + 1
  }

  function SkipSlashes(s: string): (r: string)
    ensures |r| <= |s| && r == s[|s| - |r|..] && (r != "" ==> r[0] != '/')
  {
    if s != "" && s[0] == '/' then SkipSlashes(s[1..]) else s
  }

  function Truncated(segment: string): string {
    if |segment| >= MAX_PATH_LEN then segment[..MAX_PATH_LEN - 1] else segment
  }

  /** The text behind a segment that was cut to its buffer: when no slash follows the
      segment, reading goes on behind the cut. */
  function Behind(p: string): (rest: string)
    requires p != "" && p[0] != '/'
    ensures |rest| < |p|
  {
    if Run(p) < |p| then p[Run(p)..] else p[|Truncated(p)|..]
  }

  /** cweb_split_path_segments */
  function Split(path: string, max: nat): (segments: seq<string>)
    ensures |segments| <= max
    decreases |path|
  {
    if path == "" || max == 0 then []
    else
      var p := SkipSlashes(path);
      if p == "" then []
      else [Truncated(p[..Run(p)])] + Split(Behind(p), max - 1)
  }

  /** while (*p == '/') ++p */
  method SkipSlashesOf(path: string) returns (p: string)
    ensures p == SkipSlashes(path)
  {
    hide SkipSlashes;
    var k := 0;
    while k < |path| && path[k] == '/'
      invariant k <= |path| && SkipSlashes(path[k..]) == SkipSlashes(path)
    {
      SkipStep(path[k..]);
      assert path[k..][1..] == path[k + 1..];
      k := k + 1;
    }
    SkipStep(path[k..]);
    p := path[k..];
  }

  method ReadSegment(p: string) returns (segment: string, rest: string)
    requires p != "" && p[0] != '/'
    ensures segment == Truncated(p[..Run(p)]) && rest == Behind(p)
  {
    var next := FindChar(p, 0, '/');
    var len := if next.Some? then next.value else |p|;
    assert next.None? ==> p[..|p|] == p[0..];
    assert next.Some? ==> p[..len] == p[0..len];
    RunIs(p, len);
    if len >= MAX_PATH_LEN {
      len := MAX_PATH_LEN - 1;
    }
    segment := p[..len];
    rest := if next.Some? then p[next.value..] else p[len..];
    assert Run(p) == |p| ==> p[..Run(p)] == p;
  }

  /** The same, filling a table of buffers. */
  method SplitPathSegments(path: string, segments: array<string>, max: nat) returns (count: nat)
    requires max <= segments.Length
    modifies segments
    ensures count <= max && segments[..count] == Split(path, max)
  {
    hide Split, SkipSlashes, Run, Truncated, Behind;
    count := 0;
    var p := path;
    assert segments[..0] + Split(path, max) == Split(path, max);
    while p != "" && count < max
      invariant count <= max && segments[..count] + Split(p, max - count) == Split(path, max)
      decreases |p|
    {
      SplitStep(p, max - count);
      p := SkipSlashesOf(p);
      if p == "" {
        return;
      }
      var segment, rest := ReadSegment(p);
      ghost var done, more := segments[..count], Split(rest, max - count - 1);
      assert done + ([segment] + more) == done + [segment] + more;
      segments[count] := segment;
      count := count + 1;
      assert segments[..count] == done + [segment];
      p := rest;
    }
    SplitEnds(p, max - count);
  }

  lemma SplitStep(p: string, max: nat)
    requires p != "" && max > 0
    ensures var rest := SkipSlashes(p);
            Split(p, max) == if rest == "" then [] else [Truncated(rest[..Run(rest)])] + Split(Behind(rest), max - 1)
    ensures |SkipSlashes(p)| <= |p|
  {
    hide SkipSlashes, Run, Truncated, Behind;
  }

  lemma SplitEnds(p: string, max: nat)
    ensures p == "" || max == 0 ==> Split(p, max) == []
  {}

  lemma SkipStep(p: string)
    ensures p != "" && p[0] == '/' ==> SkipSlashes(p) == SkipSlashes(p[1..])
    ensures p == "" || p[0] != '/' ==> SkipSlashes(p) == p
  {}

  lemma {:induction false} RunIs(p: string, n: nat)
    requires n <= |p| && '/' !in p[..n] && (n < |p| ==> p[n] == '/')
    ensures Run(p) == n
  {
    if n > 0 {
      assert p[..n][0] == p[0] && p[..n][1..] == p[1..][..n - 1];
      RunIs(p[1..], n - 1);
    }
  }

  // ------------------------------------------------------------------- normalisation

  /** Every run of slashes is one slash. */
  function Collapse(s: string): (r: string)
    ensures |r| <= |s| && (r == "" <==> s == "") && (s != "" ==> r[0] == s[0])
  {
    if s == "" then ""
    else if s[0] == '/' then "/" + Collapse(SkipSlashes(s[1..]))
    else [s[0]] + Collapse(s[1..])
  }

  function DropSlash(s: string): string {
    if |s| > 1 && s[|s| - 1] == '/' then s[..|s| - 1] else s
  }

  /** What cweb_normalize_path leaves in the caller's string. */
  function Normalize(s: string): string {
    DropSlash(Collapse(s))
  }

  lemma CollapseStep(s: string)
    ensures s == "" ==> Collapse(s) == ""
    ensures s != "" ==> Collapse(s) == [s[0]] + Collapse(if s[0] == '/' then SkipSlashes(s[1..]) else s[1..])
  {}

  /** The reading cursor: the text s from position src on is still unread in the array. */
  ghost predicate Unread(a: array<char>, s: string, src: nat)
    reads a
  {
    && |s| < a.Length && src <= |s| && a[|s|] == NUL
    && forall k :: src <= k < |s| ==> a[k] == s[k] != NUL
  }

  /** From position src to the next one lie slashes only, and all of them. */
  predicate IsRun(s: string, src: nat, next: nat) {
    && src < next <= |s| && (forall k :: src < k < next ==> s[k] == '/')
    && (if s[src] == '/' then next == |s| || s[next] != '/' else next == src + 1)
  }

  /** Step over a character, and over the slashes behind it if it is a slash. */
  method NextUnread(a: array<char>, ghost s: string, src: nat) returns (next: nat)
    requires Unread(a, s, src) && src < |s|
    ensures IsRun(s, src, next)
  {
    next := src;
    if a[src] == '/' {
      while a[next + 1] == '/'
        invariant src <= next < |s| && forall k :: src < k <= next ==> s[k] == '/'
        decreases |s| - next
      {
        next := next + 1;
      }
    }
    next := next + 1;
  }

  lemma {:induction false} RunIsSkipped(s: string, from: nat, next: nat)
    requires from <= next <= |s| && (forall k :: from <= k < next ==> s[k] == '/') && (next == |s| || s[next] != '/')
    ensures SkipSlashes(s[from..]) == s[next..]
    decreases next - from
  {
    hide SkipSlashes;
    SkipStep(s[from..]);
    if from < next {
      assert s[from..][1..] == s[from + 1..];
      RunIsSkipped(s, from + 1, next);
    }
  }

  lemma CollapseRun(s: string, src: nat, next: nat)
    requires IsRun(s, src, next)
    ensures Collapse(s[src..]) == [s[src]] + Collapse(s[next..])
  {
    CollapseStep(s[src..]);
    hide Collapse, SkipSlashes;
    assert s[src..][1..] == s[src + 1..];
    if s[src] == '/' {
      RunIsSkipped(s, src + 1, next);
    }
  }

  /** The loop body: copy a character back, and step over the rest of its run. */
  method CopyNext(a: array<char>, ghost s: string, src: nat, dst: nat) returns (src': nat, dst': nat)
    requires Unread(a, s, src) && src < |s| && dst <= src
    modifies a
    ensures Unread(a, s, src') && src < src' && dst' <= src'
    ensures a[..dst'] + Collapse(s[src'..]) == old(a[..dst]) + Collapse(s[src..])
  {
    hide Collapse;
    src' := NextUnread(a, s, src);
    CollapseRun(s, src, src');
    Assoc(a[..dst], [s[src]], Collapse(s[src'..]));
    dst' := Put(a, dst, a[src]);
  }

  /** cweb_normalize_path: one cursor reads, the other writes behind it. */
  method NormalizePath(a: array<char>)
    requires NUL in a[..]
    modifies a
    ensures CString(a[..]) == Normalize(old(CString(a[..])))
  {
    ghost var s := CString(a[..]);
    CStringEnds(a[..]);
    hide Collapse, CString, NoNul;
    var dst := CollapseInPlace(a, s);
    CollapseNoNul(s);
    EndPath(a, dst);
  }

  /** The loop: dst characters are left. */
  method CollapseInPlace(a: array<char>, ghost s: string) returns (dst: nat)
    requires Unread(a, s, 0)
    modifies a
    ensures dst < a.Length && a[..dst] == Collapse(s)
  {
    hide Collapse;
    var src := 0;
    dst := 0;
    assert s[0..] == s && a[..0] + Collapse(s) == Collapse(s);
    while a[src] != NUL
      invariant 0 <= src && dst <= src && Unread(a, s, src) && a[..dst] + Collapse(s[src..]) == Collapse(s)
      decreases |s| - src
    {
      src, dst := CopyNext(a, s, src, dst);
    }
    assert s[src..] == "";
    CollapseStep("");
    assert a[..dst] + "" == a[..dst];
  }

  /** Terminate the path, and drop a slash at its end. */
  method EndPath(a: array<char>, len: nat)
    requires len < a.Length && NoNul(a[..len])
    modifies a
    ensures CString(a[..]) == DropSlash(old(a[..len]))
  {
    ghost var t := a[..len];
    a[len] := NUL;
    var n := len;
    if n > 1 && a[n - 1] == '/' {
      a[n - 1] := NUL;
      n := n - 1;
    }
    assert a[..n] == DropSlash(t);
    assert forall k :: 0 <= k < n ==> a[k] == t[k] && t[k] in t;
    CStringOf(a, DropSlash(t));
  }

  lemma CStringOf(a: array<char>, s: string)
    requires |s| < a.Length && a[..|s|] == s && a[|s|] == NUL && NoNul(s)
    ensures CString(a[..]) == s
  {
    assert a[..][..|s|] == a[..|s|];
    CStringIs(a[..], s);
  }

  lemma {:induction false} CStringEnds(a: seq<char>)
    requires NUL in a
    ensures var s := CString(a);
            |s| < |a| && a[|s|] == NUL && NoNul(s) && forall k :: 0 <= k < |s| ==> a[k] == s[k] != NUL
  {
    if a[0] != NUL {
      CStringEnds(a[1..]);
    }
  }

  lemma {:induction false} CollapseNoNul(s: string)
    requires NoNul(s)
    ensures NoNul(Collapse(s))
    decreases |s|
  {
    CollapseStep(s);
    if s != "" {
      var rest := if s[0] == '/' then SkipSlashes(s[1..]) else s[1..];
      assert forall c :: c in rest ==> c in s;
      assert s[0] in s;
      CollapseNoNul(rest);
    }
    hide Collapse;
  }

  // ------------------------------------------------------------------------ matching

  /** The loop of cweb_path_matches, from segment i on. */
  predicate MatchesFrom(pattern: seq<string>, path: seq<string>, i: nat)
    requires i <= |pattern| && i <= |path|
    decreases |pattern| - i
  {
    if i == |pattern| || i == |path| then i == |pattern| && i == |path|
    else if pattern[i] == "*" then true
    else if pattern[i] != "" && pattern[i][0] == ':' then MatchesFrom(pattern, path, i + 1)
    else pattern[i] == path[i] && MatchesFrom(pattern, path, i + 1)
  }

  const MAX_SEGMENTS: nat := 16

  /** cweb_path_matches */
  method PathMatches(pattern: string, path: string) returns (r: bool)
    ensures r == MatchesFrom(Split(pattern, 16), Split(path, 16), 0)
  {
    hide Split;
    var pseg, aseg := new string[MAX_SEGMENTS], new string[MAX_SEGMENTS];
    var pn := SplitPathSegments(pattern, pseg, MAX_SEGMENTS);
    var an := SplitPathSegments(path, aseg, MAX_SEGMENTS);
    ghost var ps, qs := Split(pattern, MAX_SEGMENTS), Split(path, MAX_SEGMENTS);
    var i := 0;
    while i < pn && i < an
      invariant i <= pn == |ps| && i <= an == |qs|
      invariant MatchesFrom(ps, qs, i) == MatchesFrom(ps, qs, 0)
    {
      assert pseg[i] == ps[i] && aseg[i] == qs[i];
      if pseg[i] == "*" {
        return true;
      }
      if !(pseg[i] != "" && pseg[i][0] == ':') {
        if pseg[i] != aseg[i] {
          return false;
        }
      }
      i := i + 1;
    }
    r := i == pn && i == an;
  }
}
