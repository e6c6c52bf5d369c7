/** C strings as `seq<char>`: a string never holds the terminating NUL, which the
    C code reads one past the end. */
module Text {

  const NUL: char := '\0'

  datatype Option<+T> = None | Some(value: T)

  ghost predicate NoNul(s: string) {
    NUL !in s
  }

  /** strncmp(s + p, pat, strlen(pat)) == 0 */
  predicate At(s: string, p: nat, pat: string) {
    p + |pat| <= |s| && s[p..p + |pat|] == pat
  }

  lemma AtChar(s: string, p: nat, pat: string, k: nat)
    requires At(s, p, pat) && k < |pat|
    ensures s[p + k] == pat[k]
  {
    assert s[p..p + |pat|][k] == pat[k];
  }

  /** isspace in the C locale, which is also the table kAsciiWhitespace. */
  predicate IsSpace(c: char) {
    c == ' ' || c == '\t' || c == '\n' || c == '\r' || c == 11 as char || c == 12 as char
  }

  predicate AllSpace(s: string) {
    forall k :: 0 <= k < |s| ==> IsSpace(s[k])
  }

  predicate IsAlnum(c: char) {
    'a' <= c <= 'z' || 'A' <= c <= 'Z' || '0' <= c <= '9'
  }

  /** strstr(s + p, pat): the first position from p on where pat occurs. */
  function Find(s: string, p: nat, pat: string): (r: Option<nat>)
    ensures r.Some? ==> p <= r.value && At(s, r.value, pat)
                        && forall k :: p <= k < r.value ==> !At(s, k, pat)
    ensures r.None? ==> forall k :: p <= k ==> !At(s, k, pat)
    decreases |s| - p
  {
    if At(s, p, pat) then Some(p)
    else if p < |s| then Find(s, p + 1, pat)
    else None
  }

  predicate Contains(s: string, pat: string) {
    Find(s, 0, pat).Some?
  }

  lemma ContainsIff(s: string, pat: string)
    ensures Contains(s, pat) <==> exists k: nat :: At(s, k, pat)
  {
    hide At;
    var r := Find(s, 0, pat);
    if r.Some? {
      assert At(s, r.value, pat);
    }
  }

  predicate EndsWith(s: string, suffix: string) {
    |suffix| <= |s| && s[|s| - |suffix|..] == suffix
  }

  function TrimLeft(s: string): (r: string)
    ensures |r| <= |s| && r == s[|s| - |r|..]
    ensures r != "" ==> !IsSpace(r[0])
    ensures forall k :: 0 <= k < |s| - |r| ==> IsSpace(s[k])
  {
    if s != "" && IsSpace(s[0]) then
      var r := TrimLeft(s[1..]);
      SpaceBefore(s, r);
      r
    else s
  }

  lemma SpaceBefore(s: string, r: string)
    requires s != "" && IsSpace(s[0]) && |r| < |s| && r == s[1..][|s| - 1 - |r|..]
    requires forall k :: 0 <= k < |s| - 1 - |r| ==> IsSpace(s[1..][k])
    ensures r == s[|s| - |r|..] && forall k :: 0 <= k < |s| - |r| ==> IsSpace(s[k])
  {
    hide IsSpace;
    assert forall k :: 0 < k < |s| ==> s[k] == s[1..][k - 1];
  }

  lemma TrimLeftStep(s: string)
    ensures s == "" || !IsSpace(s[0]) ==> TrimLeft(s) == s
    ensures s != "" && IsSpace(s[0]) ==> TrimLeft(s) == TrimLeft(s[1..])
  {
    hide IsSpace;
  }

  function TrimRight(s: string): (r: string)
    ensures |r| <= |s| && r == s[..|r|]
    ensures r != "" ==> !IsSpace(r[|r| - 1])
    ensures forall k :: |r| <= k < |s| ==> IsSpace(s[k])
  {
    if s != "" && IsSpace(s[|s| - 1]) then TrimRight(s[..|s| - 1]) else s
  }

  function Trim(s: string): string {
    TrimRight(TrimLeft(s))
  }

  function Join(parts: seq<string>, sep: string): string {
    if parts == [] then ""
    else if |parts| == 1 then parts[0]
    else parts[0] + sep + Join(parts[1..], sep)
  }

  function Concat(parts: seq<string>): string {
    if parts == [] then "" else parts[0] + Concat(parts[1..])
  }

  /** What is still to be read when the loop variable is i, which may end up one past
      the end. */
  function From(s: string, i: nat): (r: string)
    ensures |r| <= |s|
  {
    if i <= |s| then s[i..] else ""
  }

  lemma FromMore(s: string, i: nat)
    requires i < |s|
    ensures From(s, i) != "" && From(s, i)[0] == s[i] && From(s, i)[1..] == From(s, i + 1)
  {}

  lemma FromEnd(s: string, i: nat)
    requires i >= |s|
    ensures From(s, i) == ""
  {}

  /** out[o++] = c */
  method Put(out: array<char>, o: nat, c: char) returns (next: nat)
    requires o < out.Length
    modifies out
    ensures next == o + 1 && out[..next] == old(out[..o]) + [c]
    ensures forall k :: next <= k < out.Length ==> out[k] == old(out[k])
  {
    out[o] := c;
    next := o + 1;
  }

  /** The last loop of every minifier: step back over trailing spaces. */
  method TrimOutput(out: array<char>, written: nat) returns (o: nat)
    requires written <= out.Length
    ensures o <= written && out[..o] == TrimRight(out[..written])
  {
    o := written;
    while o > 0 && IsSpace(out[o - 1])
      invariant o <= written && TrimRight(out[..o]) == TrimRight(out[..written])
    {
      assert out[..o][..o - 1] == out[..o - 1];
      o := o - 1;
    }
  }

  lemma Assoc(a: string, b: string, c: string)
    ensures a + (b + c) == a + b + c
  {}

  lemma SpaceStep(input: string, j: nat)
    requires j <= |input|
    ensures j < |input| && IsSpace(input[j]) ==> TrimLeft(From(input, j)) == TrimLeft(From(input, j + 1))
    ensures j == |input| || !IsSpace(input[j]) ==> TrimLeft(From(input, j)) == From(input, j)
  {
    if j < |input| {
      FromMore(input, j);
    }
    hide From, IsSpace;
  }

  /** The index after the spaces from position start on. */
  method SkipSpaces(input: string, start: nat) returns (j: nat)
    requires start <= |input|
    ensures start <= j <= |input| && From(input, j) == TrimLeft(From(input, start))
    ensures forall k :: start <= k < j ==> IsSpace(input[k])
  {
    hide TrimLeft, From, IsSpace;
    j := start;
    while j < |input| && IsSpace(input[j])
      invariant start <= j <= |input| && TrimLeft(From(input, j)) == TrimLeft(From(input, start))
      invariant forall k :: start <= k < j ==> IsSpace(input[k])
    {
      SpaceStep(input, j);
      j := j + 1;
    }
    SpaceStep(input, j);
  }

  lemma NextIs(input: string, k: nat)
    requires k <= |input|
    ensures From(input, k) == "" <==> k == |input|
    ensures k < |input| ==> From(input, k)[0] == input[k]
  {}

  function CharAt(s: string, k: nat): char {
    if k < |s| then s[k] else NUL
  }

  /** The first character of s that is not a space. */
  function NextVisible(s: string): char {
    CharAt(TrimLeft(s), 0)
  }

  function Lower(c: char): char {
    if 'A' <= c <= 'Z' then (c as int - 'A' as int + 'a' as int) as char else c
  }

  function LowerAll(s: string): string {
    seq(|s|, i requires 0 <= i < |s| => Lower(s[i]))
  }

  /** The word in letters of either case; 32 is what tells the cases apart. */
  predicate AnyCase(name: string, word: string) {
    |name| == |word|
    && forall k :: 0 <= k < |name| ==>
         name[k] == word[k] || ('A' <= name[k] <= 'Z' && name[k] as int + 32 == word[k] as int)
  }

  lemma LowerIs(name: string, word: string)
    requires forall k :: 0 <= k < |word| ==> !('A' <= word[k] <= 'Z')
    ensures LowerAll(name) == word <==> AnyCase(name, word)
  {
    if AnyCase(name, word) {
      assert forall k :: 0 <= k < |name| ==> LowerAll(name)[k] == word[k];
    }
    if LowerAll(name) == word {
      forall k | 0 <= k < |name|
        ensures name[k] == word[k] || ('A' <= name[k] <= 'Z' && name[k] as int + 32 == word[k] as int)
      {
        assert word[k] == LowerAll(name)[k];
      }
    }
  }

  lemma SliceOf<T>(s: seq<T>, p: nat, q: nat, j: nat, k: nat)
    requires p <= q <= |s| && j <= k <= q - p
    ensures s[p..q][j..k] == s[p + j..p + k]
  {
    var a, b := s[p..q][j..k], s[p + j..p + k];
    assert |a| == |b| && forall i :: 0 <= i < |a| ==> a[i] == b[i];
  }
}
