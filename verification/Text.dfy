// The parts of Go's strings package that the modelled code calls, on sequences of characters.
module Text {

  // unicode.IsSpace.
  predicate IsSpace(c: char) {
    || '\t' <= c <= '\r' || c == ' ' || c == '\U{85}' || c == '\U{A0}' || c == '\U{1680}'
    || c == '\U{2028}' || c == '\U{2029}' || c == '\U{202F}' || c == '\U{205F}' || c == '\U{3000}'
    || '\U{2000}' <= c <= '\U{200A}'
  }

  function TrimLeft(s: string): (r: string)
    ensures |r| <= |s| && r == s[|s| - |r|..]
    ensures r != "" ==> !IsSpace(r[0])
  {
    if s != "" && IsSpace(s[0]) then TrimLeft(s[1..]) else s
  }

  function TrimRight(s: string): (r: string)
    ensures |r| <= |s| && r == s[..|r|]
    ensures r != "" ==> !IsSpace(r[|r| - 1])
    ensures s != "" && !IsSpace(s[0]) ==> r != "" && r[0] == s[0]
  {
    if s != "" && IsSpace(s[|s| - 1]) then TrimRight(s[..|s| - 1]) else s
  }

  function TrimSpace(s: string): (r: string)
    ensures r != "" ==> !IsSpace(r[0]) && !IsSpace(r[|r| - 1])
  {
    TrimRight(TrimLeft(s))
  }

  predicate Trimmed(s: string) {
    s != "" ==> !IsSpace(s[0]) && !IsSpace(s[|s| - 1])
  }

  predicate HasPrefix(s: string, prefix: string) {
    |prefix| <= |s| && s[..|prefix|] == prefix
  }

  predicate HasSuffix(s: string, suffix: string) {
    |suffix| <= |s| && s[|s| - |suffix|..] == suffix
  }

  function TrimSuffix(s: string, suffix: string): string {
    if HasSuffix(s, suffix) then s[..|s| - |suffix|] else s
  }

  function TrimPrefix(s: string, prefix: string): string {
    if HasPrefix(s, prefix) then s[|prefix|..] else s
  }

  // pat occurs in s at position i.
  predicate At(s: string, pat: string, i: int) {
    0 <= i <= |s| - |pat| && s[i..i + |pat|] == pat
  }

  // strings.Index: the first position of pat, or -1.
  function Index(s: string, pat: string): (i: int)
    ensures i == -1 || At(s, pat, i)
    ensures i >= 0 ==> forall j :: j < i ==> !At(s, pat, j)
    ensures i < 0 ==> forall j :: !At(s, pat, j)
  {
    IndexFrom(s, pat, 0)
  }

  function IndexFrom(s: string, pat: string, start: nat): (i: int)
    requires start <= |s|
    ensures i == -1 || (start <= i && At(s, pat, i))
    ensures i >= 0 ==> forall j :: start <= j < i ==> !At(s, pat, j)
    ensures i < 0 ==> forall j :: start <= j ==> !At(s, pat, j)
    decreases |s| - start
  {
    if At(s, pat, start) then start
    else if start == |s| then -1
    else IndexFrom(s, pat, start + 1)
  }

  // strings.IndexAny for the two glob characters.
  function FirstWildcard(s: string): (i: int)
    ensures -1 <= i < |s|
    ensures i >= 0 ==> s[i] in "*?" && forall j :: 0 <= j < i ==> s[j] !in "*?"
    ensures i < 0 ==> forall j :: 0 <= j < |s| ==> s[j] !in "*?"
  {
    if s == "" then -1
    else if s[0] in "*?" then 0
    else
      var i := FirstWildcard(s[1..]);
      if i < 0 then -1 else i + 1
  }

  // The length of the leading run without white space.
  function WordLength(s: string): (n: nat)
    ensures n <= |s|
    ensures s != "" && !IsSpace(s[0]) ==> n > 0
    ensures forall i :: 0 <= i < n ==> !IsSpace(s[i])
    ensures n < |s| ==> IsSpace(s[n])
  {
    if s == "" || IsSpace(s[0]) then 0 else 1 + WordLength(s[1..])
  }

  // strings.Fields.
  function Fields(s: string): seq<string>
    decreases |s|
  {
    if s == "" then []
    else if IsSpace(s[0]) then Fields(s[1..])
    else
      var n := WordLength(s);
      [s[..n]] + Fields(s[n..])
  }
}
