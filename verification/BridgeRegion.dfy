// Finding the managed region in a text owned by someone else, and checking its checksum.
module BridgeRegion {
  import opened Text
  import opened Occurrences
  import opened MemoryModel

  const START := "<!-- JACU MEMORY START -->"
  const END := "<!-- JACU MEMORY END -->"
  const CHECKSUM_PREFIX := "<!-- JACU MEMORY CHECKSUM: "
  const SUFFIX := " -->"

  type Digest = string -> string

  ghost predicate HexDigest(digest: Digest) {
    forall s :: LowerHex(digest(s))
  }

  ghost predicate CollisionFree(digest: Digest) {
    forall s, t :: digest(s) == digest(t) ==> s == t
  }

  // start and end are the positions of the two markers.
  datatype Inspection = NoRegion | Region(start: nat, end: nat) | Malformed

  // The marker stands alone on its line.
  predicate LineMarker(text: string, index: nat, length: nat)
    requires index + length <= |text|
  {
    && (index > 0 ==> text[index - 1] == '\n')
    && (index + length == |text| || text[index + length] == '\n' || text[index + length] == '\r')
  }

  function Inspect(text: string): Inspection {
    var startCount, endCount := Count(text, START), Count(text, END);
    if startCount == 0 && endCount == 0 then NoRegion
    else if startCount != 1 || endCount != 1 then Malformed
    else
      var start, end := Index(text, START), Index(text, END);
      if end < start || !LineMarker(text, start, |START|) || !LineMarker(text, end, |END|) then Malformed
      else Region(start, end)
  }

  lemma StartIsHeaded()
    ensures Headed(START) && START[0] == '<' && '\n' !in START
  {
    var tail := "!-- JACU MEMORY START -->";
    assert '<' !in tail && START[1..] == tail;
  }

  lemma EndIsHeaded()
    ensures Headed(END) && END[0] == '<' && '\n' !in END
  {
    var tail := "!-- JACU MEMORY END -->";
    assert '<' !in tail && END[1..] == tail;
  }

  lemma ChecksumIsHeaded()
    ensures Headed(CHECKSUM_PREFIX) && CHECKSUM_PREFIX[0] == '<' && '\n' !in CHECKSUM_PREFIX
  {
    var tail := "!-- JACU MEMORY CHECKSUM: ";
    assert '<' !in tail && CHECKSUM_PREFIX[1..] == tail;
  }

  lemma MarkersDiffer(text: string, i: int)
    ensures At(text, START, i) ==> !At(text, END, i)
  {
    Pointwise(text, START, i);
    Pointwise(text, END, i);
    assert START[17] == 'S' && END[17] == 'E';
  }

  // What it means that the region lies at start and end.
  ghost predicate Framed(text: string, start: int, end: int) {
    && OnlyAt(text, START, start)
    && OnlyAt(text, END, end)
    && start < end
    && LineMarker(text, start, |START|)
    && LineMarker(text, end, |END|)
  }

  // The region is found exactly when both markers occur once, in order and on lines of their own,
  // and then the start marker is complete before the end marker begins.
  lemma InspectExact(text: string, start: nat, end: nat)
    ensures Inspect(text) == Region(start, end) <==> Framed(text, start, end)
    ensures Framed(text, start, end) ==> start + |START| <= end && end + |END| <= |text|
  {
    StartIsHeaded();
    EndIsHeaded();
    hide Count;
    if Framed(text, start, end) {
      OnlyAtIndex(text, START, start);
      OnlyAtIndex(text, END, end);
      NoOverlap(text, START, END, start, end);
    }
    if Inspect(text) == Region(start, end) {
      CountedOnce(text, START);
      CountedOnce(text, END);
      MarkersDiffer(text, start);
    }
  }

  lemma NoRegionExact(text: string)
    ensures Inspect(text) == NoRegion <==> Free(text, START) && Free(text, END)
  {
    FreeCount(text, START);
    FreeCount(text, END);
  }

  datatype Seal = Sealed | Missing | Broken | Mismatch

  // What lies between the start marker's line and the end marker.
  function Inner(text: string, start: nat, end: nat): string
    requires start + |START| <= end <= |text|
  {
    TrimPrefix(TrimPrefix(text[start + |START|..end], "\n"), "\r\n")
  }

  function LineLength(s: string): (n: nat)
    ensures n <= |s| && '\n' !in s[..n]
    ensures n < |s| ==> s[n] == '\n'
  {
    if s == "" || s[0] == '\n' then 0
    else
      var n := LineLength(s[1..]);
      assert s[..n + 1] == [s[0]] + s[1..][..n];
      n + 1
  }

  function Want(line: string): string {
    TrimSuffix(TrimPrefix(line, CHECKSUM_PREFIX), SUFFIX)
  }

  function VerifyLine(line: string, trailing: string, hash: string): Seal {
    if TrimSpace(trailing) != "" || !HasPrefix(line, CHECKSUM_PREFIX) || !HasSuffix(line, SUFFIX) then Broken
    else if Want(line) != "sha256:" + hash then Mismatch
    else Sealed
  }

  // The checksum line starts at marker.
  function VerifyAt(inner: string, marker: nat, digest: Digest): Seal
    requires marker <= |inner|
  {
    var rest := inner[marker..];
    var n := LineLength(rest);
    VerifyLine(rest[..n], if n < |rest| then rest[n + 1..] else "", digest(inner[..marker]))
  }

  function VerifyInner(inner: string, digest: Digest): Seal {
    var marker := Index(inner, CHECKSUM_PREFIX);
    if marker < 0 then Missing
    else if marker > 0 && inner[marker - 1] != '\n' then Broken
    else VerifyAt(inner, marker, digest)
  }

  function ChecksumLine(hash: string): string {
    CHECKSUM_PREFIX + "sha256:" + hash + SUFFIX
  }

  // Text that may precede the checksum line.
  ghost predicate Leading(body: string) {
    Free(body, CHECKSUM_PREFIX) && (body != "" ==> body[|body| - 1] == '\n')
  }

  // Text that may follow it.
  predicate Blank(rest: string) {
    rest != "" ==> rest[0] == '\n' && TrimSpace(rest[1..]) == ""
  }

  // inner is body, its own checksum line, and white space.
  ghost predicate SealedAs(inner: string, body: string, rest: string, digest: Digest) {
    inner == body + ChecksumLine(digest(body)) + rest && Leading(body) && Blank(rest)
  }

  lemma {:induction false} LineEndsAt(line: string, rest: string)
    requires '\n' !in line && (rest != "" ==> rest[0] == '\n')
    ensures LineLength(line + rest) == |line|
  {
    if line == "" {
      assert line + rest == rest;
    } else {
      assert (line + rest)[1..] == line[1..] + rest;
      LineEndsAt(line[1..], rest);
    }
  }

  lemma ChecksumLineHasNoBreak(hash: string)
    requires LowerHex(hash)
    ensures '\n' !in ChecksumLine(hash)
  {
    ChecksumIsHeaded();
  }

  lemma NothingToTrim()
    ensures TrimSpace("") == ""
  {
  }

  lemma Unwraps(p: string, m: string, q: string)
    ensures HasPrefix(p + m + q, p) && HasSuffix(p + m + q, q)
    ensures TrimSuffix(TrimPrefix(p + m + q, p), q) == m
  {
    var line := p + m + q;
    assert line[..|p|] == p && line[|p|..] == m + q;
    assert line[|line| - |q|..] == q;
    assert (m + q)[|m|..] == q && (m + q)[..|m|] == m;
  }

  // A suffix that the middle cannot end in was really cut off.
  lemma Wraps(line: string, p: string, m: string, q: string)
    requires HasPrefix(line, p) && HasSuffix(line, q) && m != "" && q != ""
    requires m[|m| - 1] != q[|q| - 1]
    requires TrimSuffix(TrimPrefix(line, p), q) == m
    ensures line == p + m + q
  {
    var said := TrimPrefix(line, p);
    assert line == p + said;
    assert line[|line| - 1] == line[|line| - |q|..][|q| - 1];
    assert said != "" ==> said[|said| - 1] == line[|line| - 1];
    assert HasSuffix(said, q) ==> said == m + q;
  }

  // A checksum line says its hash, and only the line of that hash says it.
  lemma LineSays(line: string, hash: string)
    requires LowerHex(hash)
    ensures HasPrefix(line, CHECKSUM_PREFIX) && HasSuffix(line, SUFFIX) && Want(line) == "sha256:" + hash
       <==> line == ChecksumLine(hash)
  {
    var sum := "sha256:" + hash;
    hide HasPrefix, HasSuffix, TrimPrefix, TrimSuffix;
    assert ChecksumLine(hash) == CHECKSUM_PREFIX + sum + SUFFIX;
    Unwraps(CHECKSUM_PREFIX, sum, SUFFIX);
    if HasPrefix(line, CHECKSUM_PREFIX) && HasSuffix(line, SUFFIX) && Want(line) == sum {
      assert sum[|sum| - 1] != '>' && SUFFIX[3] == '>';
      Wraps(line, CHECKSUM_PREFIX, sum, SUFFIX);
    }
  }

  lemma Behind(tail: string, line: string, rest: string)
    requires tail == line + rest && '\n' !in line && Blank(rest)
    ensures LineLength(tail) == |line| && tail[..|line|] == line
    ensures |line| < |tail| ==> TrimSpace(tail[|line| + 1..]) == ""
  {
    LineEndsAt(line, rest);
    assert rest != "" ==> tail[|line| + 1..] == rest[1..];
  }

  lemma Regrouped(a: string, b: string, c: string, d: string)
    ensures a + (b + c + d) == a + b + (c + d)
  {
  }

  lemma IndexOfLine(body: string, pat: string, mid: string, rest: string)
    requires pat != "" && Free(body, pat) && (body != "" ==> body[|body| - 1] !in pat)
    ensures Index(body + (pat + mid + rest), pat) == |body|
  {
    Regrouped(body, pat, mid, rest);
    FirstPlaced(body, pat, mid + rest);
  }

  // A line that starts with a marker is found behind any text without the marker.
  lemma LineIsAt(body: string, tail: string, pat: string, mid: string, rest: string)
    requires tail == pat + mid + rest
    requires pat != "" && Free(body, pat) && (body != "" ==> body[|body| - 1] !in pat)
    requires '\n' !in pat + mid && Blank(rest)
    ensures Index(body + tail, pat) == |body|
    ensures LineLength(tail) == |pat + mid| && tail[..|pat + mid|] == pat + mid
    ensures |pat + mid| < |tail| ==> TrimSpace(tail[|pat + mid| + 1..]) == ""
  {
    hide *;
    IndexOfLine(body, pat, mid, rest);
    Behind(tail, pat + mid, rest);
  }

  lemma TrailingBlank(line: string, trailing: string, hash: string)
    requires TrimSpace(trailing) == ""
    ensures VerifyLine(line, trailing, hash) == VerifyLine(line, "", hash)
  {
  }

  lemma VerifiesAtLine(body: string, tail: string, line: string, digest: Digest)
    requires LineLength(tail) == |line| && tail[..|line|] == line
    requires |line| < |tail| ==> TrimSpace(tail[|line| + 1..]) == ""
    ensures VerifyAt(body + tail, |body|, digest) == VerifyLine(line, "", digest(body))
  {
    hide TrimSpace, LineLength, VerifyLine;
    NothingToTrim();
    var inner := body + tail;
    assert inner[..|body|] == body && inner[|body|..] == tail;
    TrailingBlank(line, if |line| < |tail| then tail[|line| + 1..] else "", digest(body));
  }

  lemma VerifiesLine(body: string, tail: string, line: string, digest: Digest)
    requires Index(body + tail, CHECKSUM_PREFIX) == |body|
    requires body != "" ==> body[|body| - 1] == '\n'
    requires LineLength(tail) == |line| && tail[..|line|] == line
    requires |line| < |tail| ==> TrimSpace(tail[|line| + 1..]) == ""
    ensures VerifyInner(body + tail, digest) == VerifyLine(line, "", digest(body))
  {
    hide TrimSpace, Index, LineLength, VerifyLine, VerifyAt;
    VerifiesAtLine(body, tail, line, digest);
  }

  lemma LineIsFound(body: string, hash: string, rest: string, digest: Digest)
    requires LowerHex(hash) && Leading(body) && Blank(rest)
    ensures VerifyInner(body + ChecksumLine(hash) + rest, digest) == VerifyLine(ChecksumLine(hash), "", digest(body))
  {
    hide TrimSpace, LowerHex, Index, LineLength, VerifyLine, VerifyInner, Blank;
    var line, mid := ChecksumLine(hash), "sha256:" + hash + SUFFIX;
    ChecksumIsHeaded();
    ChecksumLineHasNoBreak(hash);
    assert line == CHECKSUM_PREFIX + mid;
    LineIsAt(body, line + rest, CHECKSUM_PREFIX, mid, rest);
    VerifiesLine(body, line + rest, line, digest);
    assert body + line + rest == body + (line + rest);
  }

  lemma LineVerdict(hash: string, other: string)
    requires LowerHex(hash) && LowerHex(other)
    ensures VerifyLine(ChecksumLine(hash), "", other) == if hash == other then Sealed else Mismatch
  {
    hide TrimSpace, LowerHex, HasPrefix, HasSuffix, Want, ChecksumLine;
    NothingToTrim();
    LineSays(ChecksumLine(hash), hash);
    if hash != other {
      assert ("sha256:" + hash)[7..] == hash && ("sha256:" + other)[7..] == other;
    }
  }

  // The checksum verifies exactly when the region's inside is some text, that text's own checksum
  // line, and nothing but white space after it.
  lemma SealedVerifies(inner: string, body: string, rest: string, digest: Digest)
    requires HexDigest(digest) && SealedAs(inner, body, rest, digest)
    ensures VerifyInner(inner, digest) == Sealed
  {
    assert LowerHex(digest(body));
    LineIsFound(body, digest(body), rest, digest);
    LineVerdict(digest(body), digest(body));
  }

  ghost predicate HasSeal(inner: string, digest: Digest) {
    exists body, rest :: SealedAs(inner, body, rest, digest)
  }

  lemma SealedHas(inner: string, body: string, rest: string, digest: Digest)
    requires SealedAs(inner, body, rest, digest)
    ensures HasSeal(inner, digest)
  {
  }

  // The line that verifies is the checksum line of the text before it, and only white space follows.
  lemma VerifiedLine(body: string, tail: string, digest: Digest)
    requires HexDigest(digest) && VerifyAt(body + tail, |body|, digest) == Sealed
    ensures var n := LineLength(tail); tail[..n] == ChecksumLine(digest(body)) && Blank(tail[n..])
  {
    hide TrimSpace, LowerHex, Want, HasPrefix, HasSuffix, LineLength;
    assert (body + tail)[..|body|] == body && (body + tail)[|body|..] == tail;
    var n := LineLength(tail);
    assert n < |tail| ==> tail[n..][1..] == tail[n + 1..];
    assert LowerHex(digest(body));
    LineSays(tail[..n], digest(body));
    hide ChecksumLine;
  }

  lemma VerifiedAtHasSeal(inner: string, marker: nat, digest: Digest)
    requires HexDigest(digest) && marker <= |inner|
    requires Leading(inner[..marker]) && VerifyAt(inner, marker, digest) == Sealed
    ensures HasSeal(inner, digest)
  {
    hide VerifyAt, LineLength, HasSeal, Leading, ChecksumLine, Blank;
    var body, tail := inner[..marker], inner[marker..];
    assert inner == body + tail;
    VerifiedLine(body, tail, digest);
    var n := LineLength(tail);
    assert inner == body + tail[..n] + tail[n..];
    SealedHas(inner, body, tail[n..], digest);
  }

  lemma VerifiedHasSeal(inner: string, digest: Digest)
    requires HexDigest(digest)
    ensures VerifyInner(inner, digest) == Sealed ==> HasSeal(inner, digest)
  {
    hide VerifyAt, Index, HasSeal;
    if VerifyInner(inner, digest) == Sealed {
      ChecksumIsHeaded();
      FreeBeforeFirst(inner, CHECKSUM_PREFIX);
      VerifiedAtHasSeal(inner, Index(inner, CHECKSUM_PREFIX), digest);
    }
  }

  lemma FreeBeforeFirst(s: string, pat: string)
    requires Headed(pat) && Index(s, pat) >= 0
    ensures Free(s[..Index(s, pat)], pat)
  {
    var marker := Index(s, pat);
    assert s[..marker] == s[0..marker];
    forall i ensures !At(s[..marker], pat, i) {
      Sub(s, pat, 0, marker, i);
    }
  }

  lemma VerifyExact(inner: string, digest: Digest)
    requires HexDigest(digest)
    ensures VerifyInner(inner, digest) == Sealed <==> HasSeal(inner, digest)
  {
    hide VerifyInner, SealedAs;
    VerifiedHasSeal(inner, digest);
    if HasSeal(inner, digest) {
      var body, rest :| SealedAs(inner, body, rest, digest);
      SealedVerifies(inner, body, rest, digest);
    }
  }

  // Whoever leaves the checksum line and edits the text above it is refused.
  lemma EditedBodyIsRefused(was: string, now: string, rest: string, digest: Digest)
    requires HexDigest(digest) && CollisionFree(digest)
    requires Leading(now) && Blank(rest) && now != was
    ensures VerifyInner(now + ChecksumLine(digest(was)) + rest, digest) == Mismatch
  {
    assert LowerHex(digest(was)) && LowerHex(digest(now));
    LineIsFound(now, digest(was), rest, digest);
    LineVerdict(digest(was), digest(now));
  }
}
