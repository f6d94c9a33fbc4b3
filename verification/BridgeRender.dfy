// Printing the managed region: every marker in it is one the printer wrote.
module BridgeRender {
  import opened Text
  import opened Occurrences
  import opened MemoryModel
  import opened BridgeEscape
  import opened BridgeRegion

  const SOURCE_PREFIX := "<!-- JACU MEMORY SOURCE: "

  function Entry(record: Record): string {
    ("- `" + record.memoryId + "` **") + BridgeText(record.title) + ("** \U{2014} " + BridgeText(record.body) + "\n")
  }

  function Entries(conventions: seq<Record>): string {
    if conventions == [] then "" else Entry(conventions[0]) + Entries(conventions[1..])
  }

  function SourceLine(hash: string): string {
    SOURCE_PREFIX + ("sha256:" + hash + SUFFIX)
  }

  function Body(conventions: seq<Record>, sourceHash: string): string {
    (SourceLine(sourceHash) + "\n")
    + "## JACU active conventions\n\n"
    + (if conventions == [] then "_No active conventions._\n" else "")
    + Entries(conventions)
  }

  function Printed(body: string, digest: Digest): string {
    (START + "\n") + body + (ChecksumLine(digest(body)) + "\n") + (END + "\n")
  }

  // Whole lines that hold no pat.
  ghost predicate Lines(s: string, pat: string) {
    Free(s, pat) && (s != "" ==> s[|s| - 1] == '\n')
  }

  lemma LinesThen(a: string, b: string, pat: string)
    requires pat != "" && '\n' !in pat && Lines(a, pat)
    ensures Free(b, pat) ==> Free(a + b, pat)
    ensures Lines(b, pat) ==> Lines(a + b, pat)
  {
    if Free(b, pat) {
      FreeAfter(a, b, pat);
    }
  }

  lemma LineOf(s: string, pat: string)
    requires pat != "" && '\n' !in pat && Free(s, pat)
    ensures Lines(s + "\n", pat)
  {
    NothingIn(pat);
    FreeAround(s, '\n', "", pat);
    assert s + ['\n'] + "" == s + "\n";
  }

  lemma NothingIn(pat: string)
    requires pat != ""
    ensures Free("", pat)
  {
  }

  // A line with one head can hold a pattern with that head only at its front.
  lemma OneHead(line: string, pat: string)
    requires Headed(line) && pat != "" && pat[0] == line[0]
    requires |pat| > 18 && |line| > 18 && pat[18] != line[18]
    ensures Free(line, pat)
  {
    HeadOnly(line);
    forall i ensures !At(line, pat, i) {
      Pointwise(line, pat, i);
    }
  }

  ghost predicate Marker(pat: string) {
    Headed(pat) && '\n' !in pat && HasPrefix(pat, OPENER)
  }

  lemma MarkersOpen()
    ensures Marker(START) && Marker(END) && Marker(CHECKSUM_PREFIX)
  {
    StartIsHeaded();
    EndIsHeaded();
    ChecksumIsHeaded();
  }

  // The four kinds of comment differ in their nineteenth character.
  lemma MarkersDifferThere()
    ensures |START| > 18 && |END| > 18 && |CHECKSUM_PREFIX| > 18
    ensures START[18] == 'T' && END[18] == 'N' && CHECKSUM_PREFIX[18] == 'H'
  {
  }

  lemma SourceLineIsHeaded(hash: string)
    requires LowerHex(hash)
    ensures Headed(SourceLine(hash)) && |SourceLine(hash)| > 18
    ensures SourceLine(hash)[0] == '<' && SourceLine(hash)[18] == 'O'
  {
    var tail := "!-- JACU MEMORY SOURCE: ";
    assert '<' !in tail && SOURCE_PREFIX[1..] == tail;
    var rest := "sha256:" + hash + SUFFIX;
    assert '<' !in rest;
    assert SourceLine(hash)[1..] == tail + rest;
    assert SOURCE_PREFIX[18] == 'O';
  }

  lemma ChecksumLineIsHeaded(hash: string)
    requires LowerHex(hash)
    ensures Headed(ChecksumLine(hash)) && |ChecksumLine(hash)| > 18
    ensures ChecksumLine(hash)[0] == '<' && ChecksumLine(hash)[18] == 'H'
  {
    var tail := "!-- JACU MEMORY CHECKSUM: ";
    assert '<' !in tail && CHECKSUM_PREFIX[1..] == tail;
    var rest := "sha256:" + hash + SUFFIX;
    assert '<' !in rest;
    assert ChecksumLine(hash)[1..] == tail + rest;
    assert CHECKSUM_PREFIX[18] == 'H';
  }

  lemma InertHoldsNoMarker(s: string, pat: string)
    requires Free(s, OPENER) && HasPrefix(pat, OPENER)
    ensures Free(s, pat)
  {
    FreeLonger(s, OPENER, pat);
  }

  lemma IdHoldsNoOpener(id: string)
    requires IsMemoryId(id)
    ensures '<' !in id
  {
    assert id == id[..4] + id[4..];
  }

  lemma EntryIsInert(record: Record)
    requires IsMemoryId(record.memoryId)
    ensures Lines(Entry(record), OPENER)
  {
    hide BridgeText, IsMemoryId;
    var lead := "- `" + record.memoryId + "` **";
    var title, body := BridgeText(record.title), BridgeText(record.body);
    IdHoldsNoOpener(record.memoryId);
    assert '<' !in lead && lead[|lead| - 1] == '*';
    FreeWithoutHead(lead, OPENER);
    BridgeTextIsInert(record.title);
    BridgeTextIsInert(record.body);
    FreeAfter(lead, title, OPENER);
    FreeWithoutHead("* \U{2014}", OPENER);
    FreeAround("* \U{2014}", ' ', body, OPENER);
    FreeAround(lead + title, '*', "* \U{2014}" + [' '] + body, OPENER);
    LineOf(lead + title + ['*'] + ("* \U{2014}" + [' '] + body), OPENER);
    assert Entry(record) == lead + title + ['*'] + ("* \U{2014}" + [' '] + body) + "\n";
  }

  lemma {:induction false} EntriesAreInert(conventions: seq<Record>)
    requires forall r :: r in conventions ==> IsMemoryId(r.memoryId)
    ensures Lines(Entries(conventions), OPENER)
  {
    hide Entry, IsMemoryId;
    if conventions == [] {
      NothingIn(OPENER);
    } else {
      assert conventions[0] in conventions;
      EntryIsInert(conventions[0]);
      EntriesAreInert(conventions[1..]);
      LinesThen(Entry(conventions[0]), Entries(conventions[1..]), OPENER);
    }
  }

  // A body that the printed region may hold.
  ghost predicate GoodBody(body: string) {
    && Lines(body, START)
    && Lines(body, END)
    && Lines(body, CHECKSUM_PREFIX)
    && body != ""
    && body[0] == '<'
  }

  lemma BodyHoldsNoMarker(conventions: seq<Record>, sourceHash: string, pat: string)
    requires LowerHex(sourceHash)
    requires forall r :: r in conventions ==> IsMemoryId(r.memoryId)
    requires Marker(pat) && |pat| > 18 && pat[0] == '<' && pat[18] != 'O'
    ensures Lines(Body(conventions, sourceHash), pat)
  {
    hide Entry, Entries, IsMemoryId, LowerHex, SourceLine;
    var source := SourceLine(sourceHash);
    SourceLineIsHeaded(sourceHash);
    OneHead(source, pat);
    LineOf(source, pat);
    var heading := "## JACU active conventions\n\n";
    FreeWithoutHead(heading, pat);
    LinesThen(source + "\n", heading, pat);
    var none := if conventions == [] then "_No active conventions._\n" else "";
    FreeWithoutHead(none, pat);
    LinesThen(source + "\n" + heading, none, pat);
    var entries := Entries(conventions);
    EntriesAreInert(conventions);
    InertHoldsNoMarker(entries, pat);
    LinesThen(source + "\n" + heading + none, entries, pat);
  }

  lemma BodyIsGood(conventions: seq<Record>, sourceHash: string)
    requires LowerHex(sourceHash)
    requires forall r :: r in conventions ==> IsMemoryId(r.memoryId)
    ensures GoodBody(Body(conventions, sourceHash))
  {
    MarkersOpen();
    MarkersDifferThere();
    SourceLineIsHeaded(sourceHash);
    hide Entry, Entries, IsMemoryId, LowerHex, SourceLine, Marker, Lines;
    StartIsHeaded();
    EndIsHeaded();
    ChecksumIsHeaded();
    BodyHoldsNoMarker(conventions, sourceHash, START);
    BodyHoldsNoMarker(conventions, sourceHash, END);
    BodyHoldsNoMarker(conventions, sourceHash, CHECKSUM_PREFIX);
  }
}
