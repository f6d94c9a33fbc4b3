// What the managed region says, character by character, and which records it speaks of.
module BridgeMeaning {
  import opened Wrappers
  import opened Ordering
  import opened Text
  import opened TextLaws
  import opened Occurrences
  import opened MemoryModel
  import opened BridgeEscape
  import BridgeRegion
  import BridgeRender
  import Bridge
  import opened AgentsFile
  import MemoryMeaning

  // ---- escaping ----

  // No comment opens or closes in the first n places of s.
  ghost predicate Calm(s: string, n: nat) {
    forall i :: 0 <= i < n ==> !At(s, "<!--", i) && !At(s, "-->", i)
  }

  lemma CalmNext(s: string, n: nat)
    requires 0 < n <= |s| && Calm(s, n)
    ensures Calm(s[1..], n - 1) && !HasPrefix(s, OPENER) && !HasPrefix(s, CLOSER)
  {
    assert !At(s, "<!--", 0) && !At(s, "-->", 0);
    forall i | 0 <= i < n - 1 ensures !At(s[1..], "<!--", i) && !At(s[1..], "-->", i) {
      assert !At(s, "<!--", i + 1) && !At(s, "-->", i + 1);
      if i <= |s[1..]| - 4 {
        assert s[1..][i..i + 4] == s[i + 1..i + 5];
      }
      if i <= |s[1..]| - 3 {
        assert s[1..][i..i + 3] == s[i + 1..i + 4];
      }
    }
  }

  lemma CharIsCopied(c: char, s: string)
    requires !HasPrefix([c] + s, OPENER) && !HasPrefix([c] + s, CLOSER)
    ensures Replace([c] + s) == [c] + Replace(s)
  {
    hide HasPrefix;
    assert ([c] + s)[1..] == s;
  }

  // What comes before the first place where a comment opens or closes is copied.
  lemma {:induction false} CalmIsCopied(a: string, b: string)
    requires Calm(a + b, |a|)
    ensures Replace(a + b) == a + Replace(b)
  {
    hide Calm, Replace, HasPrefix;
    if a == "" {
      assert a + b == b;
    } else {
      var rest := a[1..] + b;
      assert a + b == [a[0]] + rest;
      CalmNext(a + b, |a|);
      assert (a + b)[1..] == rest;
      CharIsCopied(a[0], rest);
      CalmIsCopied(a[1..], b);
      assert a == [a[0]] + a[1..];
      assert [a[0]] + (a[1..] + Replace(b)) == a + Replace(b);
    }
  }

  // There, an opener or a closer loses its bracket, and the text behind it is escaped in the same way.
  lemma EscapedAt(a: string, b: string)
    ensures Calm(a + ("<!--" + b), |a|) ==> Replace(a + ("<!--" + b)) == a + "&lt;!--" + Replace(b)
    ensures Calm(a + ("-->" + b), |a|) ==> Replace(a + ("-->" + b)) == a + "--&gt;" + Replace(b)
  {
    assert ("<!--" + b)[4..] == b && ("-->" + b)[3..] == b;
    assert Replace("<!--" + b) == "&lt;!--" + Replace(b);
    assert !HasPrefix("-->" + b, OPENER) by {
      assert ("-->" + b)[0] == '-';
    }
    assert Replace("-->" + b) == "--&gt;" + Replace(b);
    if Calm(a + ("<!--" + b), |a|) {
      CalmIsCopied(a, "<!--" + b);
    }
    if Calm(a + ("-->" + b), |a|) {
      CalmIsCopied(a, "-->" + b);
    }
  }

  lemma PlainIsCopied(s: string)
    requires Calm(s, |s|)
    ensures Replace(s) == s
  {
    assert s + "" == s;
    CalmIsCopied(s, "");
  }

  // ---- words on one line ----

  lemma {:induction false} JoinedWords(words: seq<string>)
    requires forall i :: 0 <= i < |words| ==> words[i] != "" && NoSpace(words[i])
    ensures Fields(JoinWords(words)) == words
  {
    if |words| == 1 {
      OneWord(words[0]);
    } else if words != [] {
      OneWord(words[0]);
      JoinedWords(words[1..]);
      FieldsAt(words[0], ' ', JoinWords(words[1..]));
      assert words == [words[0]] + words[1..];
    }
  }

  lemma {:induction false} FieldsAreWords(s: string)
    ensures forall i :: 0 <= i < |Fields(s)| ==> Fields(s)[i] != "" && NoSpace(Fields(s)[i])
    decreases |s|
  {
    if s != "" {
      if IsSpace(s[0]) {
        FieldsAreWords(s[1..]);
      } else {
        var n := WordLength(s);
        FieldsAreWords(s[n..]);
      }
    }
  }

  // The printed text has the words of the escaped text, one space between two of them.
  lemma PrintedWords(value: string)
    ensures Fields(BridgeText(value)) == Fields(Replace(value))
    ensures BridgeText(value) == JoinWords(Fields(BridgeText(value)))
  {
    hide Replace;
    FieldsAreWords(Replace(value));
    JoinedWords(Fields(Replace(value)));
  }

  // ---- the region ----

  function Line(record: Record): string {
    "- `" + record.memoryId + "` **" + BridgeText(record.title) + "** \U{2014} " + BridgeText(record.body) + "\n"
  }

  function Lines(conventions: seq<Record>): string {
    if conventions == [] then "" else Line(conventions[0]) + Lines(conventions[1..])
  }

  lemma EntryText(record: Record)
    ensures BridgeRender.Entry(record) == Line(record)
  {
    hide BridgeText;
    var id, title, body := record.memoryId, BridgeText(record.title), BridgeText(record.body);
    assert ("- `" + id + "` **") + title + ("** \U{2014} " + body + "\n")
      == "- `" + id + "` **" + title + "** \U{2014} " + body + "\n";
  }

  lemma {:induction false} EntriesText(conventions: seq<Record>)
    ensures BridgeRender.Entries(conventions) == Lines(conventions)
  {
    hide BridgeRender.Entry, Line;
    if conventions != [] {
      EntryText(conventions[0]);
      EntriesText(conventions[1..]);
    }
  }

  function BodyText(conventions: seq<Record>, sourceHash: string): string {
    "<!-- JACU MEMORY SOURCE: sha256:" + sourceHash + " -->\n"
    + "## JACU active conventions\n\n"
    + (if conventions == [] then "_No active conventions._\n" else Lines(conventions))
  }

  lemma BodyIsText(conventions: seq<Record>, sourceHash: string)
    ensures BridgeRender.Body(conventions, sourceHash) == BodyText(conventions, sourceHash)
  {
    EntriesText(conventions);
    hide BridgeRender.Entries, Lines;
    assert BridgeRender.SOURCE_PREFIX + "sha256:" == "<!-- JACU MEMORY SOURCE: sha256:";
    assert BridgeRender.SourceLine(sourceHash) + "\n" == "<!-- JACU MEMORY SOURCE: sha256:" + sourceHash + " -->\n";
    assert conventions == [] ==> Lines(conventions) == "" by {
      NoLines();
    }
  }

  lemma NoLines()
    ensures Lines([]) == ""
  {
  }

  // The whole region: the markers, the source line, the heading, a line for each convention, and the
  // checksum of all that.
  lemma RegionText(conventions: seq<Record>, env: Env)
    ensures var body := BodyText(conventions, env.source(conventions));
      Rendered(conventions, env) ==
        "<!-- JACU MEMORY START -->\n" + body
        + "<!-- JACU MEMORY CHECKSUM: sha256:" + env.digest(body) + " -->\n"
        + "<!-- JACU MEMORY END -->\n"
  {
    BodyIsText(conventions, env.source(conventions));
    hide BodyText, BridgeRender.Body;
    PrintedText(BodyText(conventions, env.source(conventions)), env.digest);
  }

  lemma PrintedText(body: string, digest: string -> string)
    ensures BridgeRender.Printed(body, digest) ==
      "<!-- JACU MEMORY START -->\n" + body
      + "<!-- JACU MEMORY CHECKSUM: sha256:" + digest(body) + " -->\n"
      + "<!-- JACU MEMORY END -->\n"
  {
    var hash := digest(body);
    assert BridgeRender.Printed(body, digest) ==
      ("<!-- JACU MEMORY START -->" + "\n") + body
      + (("<!-- JACU MEMORY CHECKSUM: " + "sha256:" + hash + " -->") + "\n") + ("<!-- JACU MEMORY END -->" + "\n");
    assert "<!-- JACU MEMORY CHECKSUM: " + "sha256:" == "<!-- JACU MEMORY CHECKSUM: sha256:";
    assert "<!-- JACU MEMORY START -->" + "\n" == "<!-- JACU MEMORY START -->\n";
    assert "<!-- JACU MEMORY END -->" + "\n" == "<!-- JACU MEMORY END -->\n";
    assert " -->" + "\n" == " -->\n";
  }

  // ---- the records ----

  predicate Active(record: Record) {
    record.kind == "convention" && record.status == "active"
  }

  predicate Fit(record: Record, secret: string -> bool) {
    && MemoryMeaning.HexId(record.memoryId, "mem_") && MemoryMeaning.HexId(record.projectId, "prj_")
    && record.source in {"human", "derived"}
    && TrimSpace(record.title) != "" && !secret(record.title) && !secret(record.body)
  }

  lemma FitByText(record: Record, secret: string -> bool)
    ensures Fit(record, secret) <==> IdentityOk(record) && ContentOk(record, secret)
  {
    MemoryMeaning.IdsByText(record.memoryId);
    MemoryMeaning.IdsByText(record.projectId);
    hide IsMemoryId, ValidProjectId, TrimSpace, MemoryMeaning.HexId;
    assert MemoryMeaning.HexId("", "prj_") ==> false by {
      NotAnId();
    }
  }

  lemma NotAnId()
    ensures !MemoryMeaning.HexId("", "prj_")
  {
  }

  // The records are accepted exactly when every active convention among them has an id, a project, a
  // known source and a title, holds no secret, and shares its id with no other one.
  lemma AcceptedExactly(records: seq<Record>, secret: string -> bool)
    ensures Faultless(records, secret) <==>
      && (forall i :: 0 <= i < |records| && Active(records[i]) ==> Fit(records[i], secret))
      && (forall i, j :: 0 <= j < i < |records| && Active(records[i]) && Active(records[j]) ==>
            records[i].memoryId != records[j].memoryId)
  {
    hide IdentityOk, ContentOk, Fit;
    forall i | 0 <= i < |records|
      ensures FaultAt(records, i, secret) == None <==>
        (Active(records[i]) ==>
           && Fit(records[i], secret)
           && forall j :: 0 <= j < i && Active(records[j]) ==> records[j].memoryId != records[i].memoryId) {
      FitByText(records[i], secret);
    }
  }

  // The first fault, if there is one, is the first of these that holds of the record.
  lemma FaultSays(records: seq<Record>, i: nat, secret: string -> bool)
    requires i < |records| && FaultAt(records, i, secret).Some?
    ensures var record := records[i];
      Active(record) && match FaultAt(records, i, secret).value
        case InvalidIdentity(id) =>
          && id == record.memoryId
          && (!MemoryMeaning.HexId(record.memoryId, "mem_") || !MemoryMeaning.HexId(record.projectId, "prj_")
              || record.source !in {"human", "derived"})
        case SecretContent => TrimSpace(record.title) == "" || secret(record.title) || secret(record.body)
        case DuplicateId(id) =>
          && id == record.memoryId
          && exists j :: 0 <= j < i && Active(records[j]) && records[j].memoryId == id
        case _ => false
  {
    MemoryMeaning.IdsByText(records[i].memoryId);
    MemoryMeaning.IdsByText(records[i].projectId);
    hide IsMemoryId, ValidProjectId, TrimSpace, MemoryMeaning.HexId;
  }

  ghost predicate Trims(evidence: seq<string>, x: string) {
    exists k :: 0 <= k < |evidence| && TrimSpace(evidence[k]) == x
  }

  lemma TrimsNext(evidence: seq<string>, x: string)
    requires evidence != []
    ensures Trims(evidence, x) <==> x == TrimSpace(evidence[0]) || Trims(evidence[1..], x)
  {
    hide TrimSpace;
    var rest := evidence[1..];
    if k :| 0 <= k < |rest| && TrimSpace(rest[k]) == x {
      assert evidence[k + 1] == rest[k];
    }
    if k :| 0 < k < |evidence| && TrimSpace(evidence[k]) == x {
      assert rest[k - 1] == evidence[k];
    }
  }

  lemma {:induction false} TrimmedMembers(evidence: seq<string>)
    ensures forall x :: x in TrimmedOnce(evidence) <==> Trims(evidence, x)
  {
    hide TrimSpace, Trims;
    if evidence != [] {
      TrimmedMembers(evidence[1..]);
      forall x ensures x in TrimmedOnce(evidence) <==> Trims(evidence, x) {
        TrimsNext(evidence, x);
      }
    } else {
      NothingTrims();
    }
  }

  lemma {:induction false} TrimmedDistinct(evidence: seq<string>)
    ensures Distinct(TrimmedOnce(evidence))
  {
    hide TrimSpace;
    if evidence != [] {
      TrimmedDistinct(evidence[1..]);
    }
  }

  lemma EvidenceSays(evidence: seq<string>)
    ensures StrictlySorted(NormalEvidence(evidence))
    ensures forall x :: x in NormalEvidence(evidence) <==> Trims(evidence, x)
  {
    TrimmedMembers(evidence);
    TrimmedDistinct(evidence);
    hide TrimSpace, TrimmedOnce, SortStrings, Trims, StrictlySorted, Distinct;
    var once, sorted := TrimmedOnce(evidence), NormalEvidence(evidence);
    SortSorts(once);
    forall x ensures x in sorted <==> x in once {
      assert x in Elements(sorted) <==> x in Elements(once);
    }
  }

  lemma NothingTrims()
    ensures forall x :: !Trims([], x)
  {
  }

  // A printed convention says what an active one says, without white space around its title and body, and
  // with each piece of evidence once, trimmed and sorted.
  ghost predicate Says(record: Record, raw: Record) {
    && record.memoryId == raw.memoryId && record.projectId == raw.projectId && record.source == raw.source
    && record.title == TrimSpace(raw.title) && record.body == TrimSpace(raw.body)
    && record.kind == raw.kind && record.status == raw.status && record.supersededBy == raw.supersededBy
    && record.createdAt == raw.createdAt && record.updatedAt == raw.updatedAt
    && StrictlySorted(record.evidence)
    && forall x :: x in record.evidence <==> Trims(raw.evidence, x)
  }

  lemma NormalSays(raw: Record)
    ensures Says(Normal(raw), raw)
  {
    EvidenceSays(raw.evidence);
    hide TrimSpace, NormalEvidence, Trims, StrictlySorted;
  }

  // What is printed, by ascending id: of each active convention what it says, and nothing else.
  lemma PrintedSays(conventions: seq<Record>, records: seq<Record>)
    requires PrintOrder(conventions, records)
    ensures forall i, j :: 0 <= i < j < |conventions| ==> Less(conventions[i].memoryId, conventions[j].memoryId)
    ensures forall record :: record in conventions ==>
      exists raw :: raw in records && Active(raw) && Says(record, raw)
    ensures forall raw :: raw in records && Active(raw) ==>
      exists record :: record in conventions && Says(record, raw)
  {
    forall i, j | 0 <= i < j < |conventions| ensures Less(conventions[i].memoryId, conventions[j].memoryId) {
      assert Ids(conventions)[i] == conventions[i].memoryId && Ids(conventions)[j] == conventions[j].memoryId;
    }
    hide Says, Normal, StrictlySorted, Less;
    forall record | record in conventions ensures exists raw :: raw in records && Active(raw) && Says(record, raw) {
      assert record in Elements(conventions);
      var raw :| raw in records && IsConvention(raw) && Normal(raw) == record;
      NormalSays(raw);
    }
    forall raw | raw in records && Active(raw) ensures exists record :: record in conventions && Says(record, raw) {
      NormalSays(raw);
      assert Normal(raw) in Chosen(records);
      assert Normal(raw) in Elements(conventions);
    }
  }

  // ---- where a region is and goes ----

  // A marker that starts its line and ends it, or the file.
  predicate OnItsOwn(text: string, marker: string, at: nat) {
    && At(text, marker, at)
    && (at == 0 || text[at - 1] == '\n')
    && (at + |marker| == |text| || text[at + |marker|] in "\r\n")
  }

  // A region lies where each marker occurs once, on a line of its own, the start before the end.
  lemma FramedMeans(text: string, start: nat, end: nat)
    ensures BridgeRegion.Framed(text, start, end) <==>
      && start < end
      && OnItsOwn(text, "<!-- JACU MEMORY START -->", start) && OnItsOwn(text, "<!-- JACU MEMORY END -->", end)
      && (forall i :: At(text, "<!-- JACU MEMORY START -->", i) ==> i == start)
      && (forall i :: At(text, "<!-- JACU MEMORY END -->", i) ==> i == end)
  {
    MarkerOnItsOwn(text, BridgeRegion.START, start);
    MarkerOnItsOwn(text, BridgeRegion.END, end);
    hide At, OnItsOwn, BridgeRegion.LineMarker;
  }

  lemma MarkerOnItsOwn(text: string, marker: string, at: nat)
    ensures OnItsOwn(text, marker, at) <==> At(text, marker, at) && BridgeRegion.LineMarker(text, at, |marker|)
    ensures At(text, marker, at) ==> at + |marker| <= |text|
  {
    var breaks := "\r\n";
    assert breaks[0] == '\r' && breaks[1] == '\n';
  }

  // An update takes one line break after the end marker with it, of either kind; before the checked text
  // a line break is skipped.
  lemma LineBreaksMean(rest: string)
    ensures HasPrefix(rest, "\r\n") ==> Bridge.LineBreak(rest) == "\r\n"
    ensures HasPrefix(rest, "\n") ==> Bridge.LineBreak(rest) == "\n"
    ensures !HasPrefix(rest, "\r\n") && !HasPrefix(rest, "\n") ==> Bridge.LineBreak(rest) == ""
  {
    assert HasPrefix(rest, "\n") ==> rest[0] == '\n';
    assert HasPrefix(rest, "\r\n") ==> rest[0] == '\r';
  }

  lemma InnerMeans(text: string, start: nat, end: nat, inside: string)
    requires start + |BridgeRegion.START| <= end <= |text|
    ensures text[start + |BridgeRegion.START|..end] == "\r\n" + inside ==>
      BridgeRegion.Inner(text, start, end) == inside
    ensures text[start + |BridgeRegion.START|..end] == "\n" + inside && !HasPrefix(inside, "\r\n") ==>
      BridgeRegion.Inner(text, start, end) == inside
  {
    var all := text[start + |BridgeRegion.START|..end];
    if all == "\r\n" + inside {
      assert all[0] == '\r' && all[2..] == inside && all[..2] == "\r\n";
    }
    if all == "\n" + inside {
      assert all[..1] == "\n" && all[1..] == inside;
    }
  }


  // Behind a text that is not empty a new region starts after a blank line, and no more is added than
  // that takes.
  lemma PaddingMeans(text: string)
    ensures text == "" ==> Bridge.Padding(text) == ""
    ensures text != "" ==> HasSuffix(text + Bridge.Padding(text), "\n\n")
    ensures Bridge.Padding(text) in {"", "\n", "\n\n"}
    ensures HasSuffix(text, "\n\n") ==> Bridge.Padding(text) == ""
    ensures text != "" && text[|text| - 1] == '\n' ==> |Bridge.Padding(text)| <= 1
  {
    assert "" + "\n" == "\n" && "\n" + "" == "\n" && "" + "" == "" && "\n" + "\n" == "\n\n";
    EndsBlank(text);
    EndsBlank(text + Bridge.Padding(text));
    hide HasSuffix;
    assert text + "" == text;
  }

  lemma EndsBlank(s: string)
    ensures HasSuffix(s, "\n\n") <==> |s| >= 2 && s[|s| - 2] == '\n' && s[|s| - 1] == '\n'
  {
    if |s| >= 2 {
      assert s[|s| - 2..] == [s[|s| - 2], s[|s| - 1]];
    }
  }
}
