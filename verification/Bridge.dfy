// Keeping the managed region of AGENTS.md in step with the active conventions while leaving every
// other character of the file alone.
module Bridge {
  import opened Wrappers
  import opened Text
  import opened Occurrences
  import opened MemoryModel
  import opened BridgeRegion
  import opened BridgeRender

  datatype Status = Created | Appended | Updated | Unchanged

  datatype Fault = MarkersMalformed | ChecksumMissing | ChecksumMismatch

  // The line break, if any, that follows the end marker.
  function LineBreak(rest: string): (r: string)
    ensures r in {"", "\n", "\r\n"} && HasPrefix(rest, r)
  {
    if HasPrefix(rest, "\r\n") then "\r\n" else if HasPrefix(rest, "\n") then "\n" else ""
  }

  // appendManagedRegion: a blank line is kept before the region.
  function Padding(current: string): string {
    if current == "" then ""
    else
      var newline := if current[|current| - 1] != '\n' then "\n" else "";
      var next := current + newline;
      newline + if |next| < 2 || next[|next| - 2] != '\n' then "\n" else ""
  }

  // Where in the file the region goes: the text kept before it and the text kept after it.
  datatype Frame = Frame(before: string, after: string, status: Status)

  lemma RegionInside(text: string)
    ensures Inspect(text).Region? ==>
      Inspect(text).start + |START| <= Inspect(text).end && Inspect(text).end + |END| <= |text|
  {
    hide Inspect, Framed;
    if Inspect(text).Region? {
      InspectExact(text, Inspect(text).start, Inspect(text).end);
    }
  }

  // What a found region and the verdict on its checksum mean for the sync.
  function RegionFrame(text: string, start: nat, end: nat, seal: Seal): Result<Frame, Fault>
    requires start + |START| <= end && end + |END| <= |text|
  {
    match seal
    case Missing => Err(ChecksumMissing)
    case Broken => Err(MarkersMalformed)
    case Mismatch => Err(ChecksumMismatch)
    case Sealed =>
      hide LineBreak;
      var rest := text[end + |END|..];
      Ok(Frame(text[..start], rest[|LineBreak(rest)|..], Updated))
  }

  function FrameOf(content: Option<string>, digest: Digest): Result<Frame, Fault> {
    match content
    case None => Ok(Frame("", "", Created))
    case Some(text) =>
      match Inspect(text)
      case Malformed => Err(MarkersMalformed)
      case NoRegion => Ok(Frame(text + Padding(text), "", Appended))
      case Region(start, end) =>
        hide Inspect, VerifyInner, Inner;
        RegionInside(text);
        RegionFrame(text, start, end, VerifyInner(Inner(text, start, end), digest))
  }

  // The file after a sync that prints the given region.
  function Synced(content: Option<string>, region: string, digest: Digest): Result<string, Fault> {
    match FrameOf(content, digest)
    case Err(fault) => Err(fault)
    case Ok(frame) => Ok(frame.before + region + frame.after)
  }

  // What an update replaces: a framed and sealed region with the line break behind it, and nothing
  // else of the text.
  ghost predicate Replaces(text: string, frame: Frame, start: nat, end: nat, digest: Digest) {
    && Framed(text, start, end)
    && start + |START| <= end && end + |END| <= |text|
    && HasSeal(Inner(text, start, end), digest)
    && frame.status == Updated && |frame.before| == start
    && text == frame.before + text[start..end + |END|] + LineBreak(text[end + |END|..]) + frame.after
  }

  // The frame of a file: a new file has nothing around the region, a file without any marker keeps
  // all its text before it, and a file with a good region keeps everything but that.
  ghost predicate IsFrame(content: Option<string>, frame: Frame, digest: Digest) {
    match content
    case None => frame == Frame("", "", Created)
    case Some(text) =>
      || (Free(text, START) && Free(text, END) && frame == Frame(text + Padding(text), "", Appended))
      || exists start, end :: Replaces(text, frame, start, end, digest)
  }

  // Text around the region: no marker in it, and the region starts a line.
  ghost predicate Surrounds(before: string, after: string) {
    && Lines(before, START) && Lines(before, END)
    && Free(after, START) && Free(after, END)
  }

  function Sum(body: string, digest: Digest): string {
    ChecksumLine(digest(body)) + "\n"
  }

  lemma SumHoldsNoMarker(body: string, digest: Digest)
    requires HexDigest(digest)
    ensures Lines(Sum(body, digest), START) && Lines(Sum(body, digest), END)
  {
    var line := ChecksumLine(digest(body));
    assert LowerHex(digest(body));
    hide LowerHex, ChecksumLine;
    ChecksumLineIsHeaded(digest(body));
    StartIsHeaded();
    EndIsHeaded();
    MarkersDifferThere();
    OneHead(line, START);
    OneHead(line, END);
    LineOf(line, START);
    LineOf(line, END);
  }

  lemma MarkersHoldNoOther()
    ensures Lines(START + "\n", END) && Lines(END + "\n", START)
  {
    StartIsHeaded();
    EndIsHeaded();
    MarkersDifferThere();
    OneHead(START, END);
    OneHead(END, START);
    LineOf(START, END);
    LineOf(END, START);
  }

  lemma NewlineHoldsNothing(pat: string)
    requires pat != "" && '\n' !in pat
    ensures Lines("\n", pat)
  {
    FreeWithoutHead("\n", pat);
  }

  lemma FirstOfText(before: string, mark: string, rest: string, after: string)
    requires Headed(mark) && '\n' !in mark
    requires Lines(before, mark) && Lines(rest, mark) && Free(after, mark)
    ensures OnlyAt(before + (mark + "\n" + rest) + after, mark, |before|)
  {
    NewlineHoldsNothing(mark);
    LinesThen("\n", rest, mark);
    LinesThen("\n" + rest, after, mark);
    PlacedOnce(before, mark, "\n" + rest + after);
    assert before + mark + ("\n" + rest + after) == before + (mark + "\n" + rest) + after;
  }

  lemma LastOfText(before: string, lead: string, mark: string, after: string)
    requires Headed(mark) && '\n' !in mark
    requires Lines(before, mark) && Lines(lead, mark) && Free(after, mark)
    ensures OnlyAt(before + (lead + mark + "\n") + after, mark, |before| + |lead|)
  {
    NewlineHoldsNothing(mark);
    LinesThen(before, lead, mark);
    LinesThen("\n", after, mark);
    PlacedOnce(before + lead, mark, "\n" + after);
    assert before + lead + mark + ("\n" + after) == before + (lead + mark + "\n") + after;
  }

  // The printed region, seen from its first marker and from its last.
  lemma PrintedAs(body: string, digest: Digest)
    ensures Printed(body, digest) == START + "\n" + (body + Sum(body, digest) + (END + "\n"))
    ensures Printed(body, digest) == (START + "\n") + body + Sum(body, digest) + END + "\n"
  {
    var sum := Sum(body, digest);
    Regroup(START, "\n", body, sum, END);
  }

  lemma Regroup(a: string, n: string, b: string, c: string, d: string)
    ensures (a + n) + b + c + (d + n) == a + n + (b + c + (d + n))
    ensures (a + n) + b + c + (d + n) == (a + n) + b + c + d + n
  {
  }

  lemma StartFoundOnce(before: string, body: string, after: string, digest: Digest)
    requires HexDigest(digest) && GoodBody(body) && Surrounds(before, after)
    ensures OnlyAt(before + Printed(body, digest) + after, START, |before|)
  {
    StartIsHeaded();
    MarkersHoldNoOther();
    SumHoldsNoMarker(body, digest);
    var sum := Sum(body, digest);
    hide Sum, Headed, Lines, OnlyAt;
    LinesThen(body, sum, START);
    LinesThen(body + sum, END + "\n", START);
    PrintedAs(body, digest);
    FirstOfText(before, START, body + sum + (END + "\n"), after);
  }

  // The printed region up to its end marker.
  function LeadOf(body: string, digest: Digest): string {
    (START + "\n") + body + Sum(body, digest)
  }

  function EndOf(before: string, body: string, digest: Digest): nat {
    |before| + |LeadOf(body, digest)|
  }

  lemma LeadShape(before: string, body: string, digest: Digest)
    ensures Printed(body, digest) == LeadOf(body, digest) + END + "\n"
    ensures EndOf(before, body, digest) == |before| + |LeadOf(body, digest)|
    ensures |START| <= |LeadOf(body, digest)|
  {
    PrintedAs(body, digest);
  }

  lemma LeadHoldsNoEnd(body: string, digest: Digest)
    requires HexDigest(digest) && GoodBody(body)
    ensures Lines(LeadOf(body, digest), END)
  {
    EndIsHeaded();
    MarkersHoldNoOther();
    SumHoldsNoMarker(body, digest);
    hide Sum, Headed, Lines, Free;
    LinesThen(START + "\n", body, END);
    LinesThen((START + "\n") + body, Sum(body, digest), END);
  }

  lemma EndFoundOnce(before: string, body: string, after: string, digest: Digest)
    requires HexDigest(digest) && GoodBody(body) && Surrounds(before, after)
    ensures OnlyAt(before + Printed(body, digest) + after, END, EndOf(before, body, digest))
  {
    assert Lines(before, END) && Free(after, END);
    hide *;
    EndIsHeaded();
    LeadHoldsNoEnd(body, digest);
    LeadShape(before, body, digest);
    LastOfText(before, LeadOf(body, digest), END, after);
  }

  // Whatever text surrounds it, a printed region is found where it was put.
  lemma PrintedIsFramed(before: string, body: string, after: string, digest: Digest)
    requires HexDigest(digest) && GoodBody(body) && Surrounds(before, after)
    ensures Framed(before + Printed(body, digest) + after, |before|, EndOf(before, body, digest))
  {
    var text, end := before + Printed(body, digest) + after, EndOf(before, body, digest);
    StartFoundOnce(before, body, after, digest);
    EndFoundOnce(before, body, after, digest);
    PrintedAs(body, digest);
    var sum := Sum(body, digest);
    hide OnlyAt, Headed, Printed;
    assert Lines(before, START);
    var inside := body + sum + (END + "\n");
    assert before != "" ==> text[|before| - 1] == before[|before| - 1];
    assert text[|before| + |START|] == (START + "\n" + inside)[|START|] == '\n';
    var lead := (START + "\n") + body + sum;
    assert sum[|sum| - 1] == '\n' && lead[|lead| - 1] == '\n';
    assert text[end - 1] == (lead + END + "\n")[|lead| - 1] == '\n';
    assert text[end + |END|] == (lead + END + "\n")[|lead| + |END|] == '\n';
  }

  // The printed region carries its own checksum.
  lemma BodyIsSealed(body: string, digest: Digest)
    requires GoodBody(body)
    ensures HasSeal(body + Sum(body, digest), digest)
  {
    var inner, line := body + Sum(body, digest), ChecksumLine(digest(body));
    hide ChecksumLine;
    assert SealedAs(inner, body, "\n", digest) by {
      NothingToTrim();
      assert "\n"[1..] == "" && inner == body + line + "\n";
    }
  }

  lemma Trims(inner: string)
    requires |inner| > 0 && inner[0] == '<'
    ensures TrimPrefix(TrimPrefix("\n" + inner, "\n"), "\r\n") == inner
  {
    assert ("\n" + inner)[..1] == "\n" && ("\n" + inner)[1..] == inner;
    assert |inner| >= 2 ==> inner[..2][0] == '<';
  }

  lemma Cut(before: string, mark: string, inner: string, rest: string, after: string)
    ensures (before + (mark + "\n" + inner + rest) + after)[|before| + |mark|..|before| + |mark| + 1 + |inner|]
         == "\n" + inner
  {
  }

  lemma InnerOf(before: string, region: string, inner: string, rest: string, after: string)
    requires region == START + "\n" + inner + rest
    requires |inner| > 0 && inner[0] == '<'
    ensures Inner(before + region + after, |before|, |before| + |START| + 1 + |inner|) == inner
  {
    Cut(before, START, inner, rest, after);
    hide TrimPrefix;
    Trims(inner);
  }

  lemma PrintedIsSealed(before: string, body: string, after: string, digest: Digest)
    requires GoodBody(body)
    ensures |before| + |START| <= EndOf(before, body, digest) <= |before + Printed(body, digest) + after|
    ensures HasSeal(Inner(before + Printed(body, digest) + after, |before|, EndOf(before, body, digest)), digest)
  {
    hide *;
    var inner, region := body + Sum(body, digest), Printed(body, digest);
    assert region == START + "\n" + inner + (END + "\n") && |inner| > 0 && inner[0] == '<'
      && EndOf(before, body, digest) == |before| + |START| + 1 + |inner| by {
      InnerShape(before, body, digest);
    }
    BodyIsSealed(body, digest);
    InnerOf(before, region, inner, END + "\n", after);
  }

  lemma InnerShape(before: string, body: string, digest: Digest)
    requires GoodBody(body)
    ensures var inner := body + Sum(body, digest);
      && Printed(body, digest) == START + "\n" + inner + (END + "\n")
      && |inner| > 0 && inner[0] == '<'
      && EndOf(before, body, digest) == |before| + |START| + 1 + |inner|
  {
    PrintedAs(body, digest);
    var sum := Sum(body, digest);
    hide Sum, Printed, Lines;
    Regroup2(START, "\n", body, sum, END + "\n");
    assert |body| > 0 && (body + sum)[0] == body[0];
  }

  lemma Regroup2(a: string, n: string, b: string, c: string, d: string)
    ensures a + n + (b + c + d) == a + n + (b + c) + d
  {
  }

  lemma BehindEnd(before: string, lead: string, after: string)
    ensures
      var text, i := before + (lead + END + "\n") + after, |before| + |lead|;
      && text[i + |END|..] == "\n" + after
      && LineBreak(text[i + |END|..]) == "\n"
      && text == before + text[|before|..i + |END|] + "\n" + after
  {
    var text, i := before + (lead + END + "\n") + after, |before| + |lead|;
    assert text == (before + lead + END) + ("\n" + after);
    assert text[i + |END|..] == "\n" + after;
    assert |after| > 0 ==> ("\n" + after)[..2][0] == '\n';
    assert ("\n" + after)[..1] == "\n";
    assert text[|before|..i + |END|] == lead + END;
  }

  // A later sync finds the text around a printed region exactly as it was left.
  lemma FrameIsKept(before: string, body: string, after: string, digest: Digest)
    requires HexDigest(digest) && GoodBody(body) && Surrounds(before, after)
    ensures IsFrame(Some(before + Printed(body, digest) + after), Frame(before, after, Updated), digest)
  {
    hide *;
    var region, end := Printed(body, digest), EndOf(before, body, digest);
    var lead, frame := LeadOf(body, digest), Frame(before, after, Updated);
    var text := before + region + after;
    assert Replaces(text, frame, |before|, end, digest) by {
      assert region == lead + END + "\n" && end == |before| + |lead| && |START| <= |lead| by {
        LeadShape(before, body, digest);
      }
      PrintedIsFramed(before, body, after, digest);
      PrintedIsSealed(before, body, after, digest);
      BehindEnd(before, lead, after);
      ReplacesWhen(text, frame, end, digest);
    }
    ReplacesIsFrame(text, frame, |before|, end, digest);
  }

  lemma ReplacesIsFrame(text: string, frame: Frame, start: nat, end: nat, digest: Digest)
    requires Replaces(text, frame, start, end, digest)
    ensures IsFrame(Some(text), frame, digest)
  {
    hide Replaces;
  }

  lemma ReplacesWhen(text: string, frame: Frame, end: nat, digest: Digest)
    requires Framed(text, |frame.before|, end) && frame.status == Updated
    requires |frame.before| + |START| <= end && end + |END| <= |text|
    requires HasSeal(Inner(text, |frame.before|, end), digest)
    requires text == frame.before + text[|frame.before|..end + |END|] + LineBreak(text[end + |END|..]) + frame.after
    ensures Replaces(text, frame, |frame.before|, end, digest)
  {
  }

  lemma PaddingEndsLine(text: string, pat: string)
    requires pat != "" && '\n' !in pat && Free(text, pat)
    ensures Lines(text + Padding(text), pat)
  {
    var padding := Padding(text);
    NewlineHoldsNothing(pat);
    if text == "" || padding == "" {
      assert text + padding == text;
    } else if text[|text| - 1] == '\n' {
      assert text + "" == text && padding == "\n";
      LinesThen(text, "\n", pat);
    } else {
      LineOf(text, pat);
      LinesThen(text + "\n", "\n", pat);
      assert padding == "\n\n";
      assert text + "\n\n" == (text + "\n") + "\n";
    }
  }

  lemma OutsideIsFree(text: string, start: nat, end: nat, tail: nat)
    requires Framed(text, start, end) && end + |END| <= tail <= |text|
    ensures Surrounds(text[..start], text[tail..])
  {
    InspectExact(text, start, end);
    hide Inspect;
    forall i ensures !At(text[..start], START, i) && !At(text[..start], END, i)
      && !At(text[tail..], START, i) && !At(text[tail..], END, i)
    {
      assert text[..start] == text[0..start];
      Sub(text, START, 0, start, i);
      Sub(text, END, 0, start, i);
      SubTail(text, START, tail, i);
      SubTail(text, END, tail, i);
    }
  }

  lemma AroundReplaced(text: string, frame: Frame, start: nat, end: nat, digest: Digest)
    requires Replaces(text, frame, start, end, digest)
    ensures
      var rest := text[end + |END|..];
      frame.before == text[..start] && frame.after == rest[|LineBreak(rest)|..]
  {
    var middle, rest := text[start..end + |END|], text[end + |END|..];
    var lineBreak := LineBreak(rest);
    assert text == frame.before + middle + lineBreak + frame.after && |frame.before| == start;
    hide *;
    Rejoined(text, frame.before, middle, lineBreak, frame.after);
  }

  lemma Rejoined(text: string, a: string, b: string, c: string, d: string)
    requires text == a + b + c + d
    ensures text[..|a|] == a && text[|a| + |b|..] == c + d && (c + d)[|c|..] == d
  {
  }

  lemma ReplacedSurrounds(text: string, frame: Frame, start: nat, end: nat, digest: Digest)
    requires Replaces(text, frame, start, end, digest)
    ensures Surrounds(frame.before, frame.after)
  {
    AroundReplaced(text, frame, start, end, digest);
    var tail := end + |END| + |LineBreak(text[end + |END|..])|;
    hide Surrounds, Framed, Inner, HasSeal;
    assert frame.after == text[tail..];
    OutsideIsFree(text, start, end, tail);
  }

  // No text that a sync keeps holds a marker, and the region starts a line.
  lemma FrameSurrounds(content: Option<string>, frame: Frame, digest: Digest)
    requires IsFrame(content, frame, digest)
    ensures Surrounds(frame.before, frame.after)
  {
    StartIsHeaded();
    EndIsHeaded();
    NothingIn(START);
    NothingIn(END);
    if content.Some? {
      var text := content.value;
      if start: nat, end: nat :| Replaces(text, frame, start, end, digest) {
        hide *;
        ReplacedSurrounds(text, frame, start, end, digest);
      } else {
        hide Free;
        PaddingEndsLine(text, START);
        PaddingEndsLine(text, END);
      }
    }
  }

  lemma RegionFrameExact(text: string, start: nat, end: nat, seal: Seal, frame: Frame, digest: Digest)
    requires Framed(text, start, end) && start + |START| <= end && end + |END| <= |text|
    requires seal == Sealed <==> HasSeal(Inner(text, start, end), digest)
    ensures RegionFrame(text, start, end, seal) == Ok(frame) <==> Replaces(text, frame, start, end, digest)
  {
    var rest := text[end + |END|..];
    var lineBreak := LineBreak(rest);
    assert RegionFrame(text, start, end, seal) == Ok(frame) <==>
      seal == Sealed && frame == Frame(text[..start], rest[|lineBreak|..], Updated);
    hide *;
    if RegionFrame(text, start, end, seal) == Ok(frame) {
      SplitReplaces(text, start, end, digest);
    }
    if Replaces(text, frame, start, end, digest) {
      AroundReplaced(text, frame, start, end, digest);
      ReplacedMeans(text, frame, start, end, digest);
    }
  }

  lemma ReplacedMeans(text: string, frame: Frame, start: nat, end: nat, digest: Digest)
    requires Replaces(text, frame, start, end, digest)
    ensures frame.status == Updated && HasSeal(Inner(text, start, end), digest)
  {
  }

  lemma SplitReplaces(text: string, start: nat, end: nat, digest: Digest)
    requires Framed(text, start, end) && start + |START| <= end && end + |END| <= |text|
    requires HasSeal(Inner(text, start, end), digest)
    ensures
      var rest := text[end + |END|..];
      Replaces(text, Frame(text[..start], rest[|LineBreak(rest)|..], Updated), start, end, digest)
  {
    var rest := text[end + |END|..];
    var lineBreak := LineBreak(rest);
    BreakLeads(rest);
    hide *;
    var frame := Frame(text[..start], rest[|lineBreak|..], Updated);
    var middle := text[start..end + |END|];
    Pieces(text, start, end + |END|, |lineBreak|);
    ReplacesWhen(text, frame, end, digest);
  }

  lemma BreakLeads(rest: string)
    ensures LineBreak(rest) == rest[..|LineBreak(rest)|]
  {
  }

  // The frame that a sync works with is the one that the file has; it refuses any other file.
  lemma FrameExact(content: Option<string>, frame: Frame, digest: Digest)
    requires HexDigest(digest)
    ensures FrameOf(content, digest) == Ok(frame) <==> IsFrame(content, frame, digest)
  {
    if content.Some? {
      var text := content.value;
      NoRegionExact(text);
      RegionInside(text);
      hide Inspect, Free, Framed, Replaces, RegionFrame, Padding, VerifyInner, Inner, HasSeal, HexDigest;
      if Inspect(text).Region? {
        var start, end := Inspect(text).start, Inspect(text).end;
        InspectExact(text, start, end);
        VerifyExact(Inner(text, start, end), digest);
        RegionFrameExact(text, start, end, VerifyInner(Inner(text, start, end), digest), frame, digest);
      }
      if start: nat, end: nat :| Replaces(text, frame, start, end, digest) {
        ReplacedIsFramed(text, frame, start, end, digest);
        InspectExact(text, start, end);
        VerifyExact(Inner(text, start, end), digest);
        RegionFrameExact(text, start, end, VerifyInner(Inner(text, start, end), digest), frame, digest);
      }
    }
  }

  lemma ReplacedIsFramed(text: string, frame: Frame, start: nat, end: nat, digest: Digest)
    requires Replaces(text, frame, start, end, digest)
    ensures Framed(text, start, end) && start + |START| <= end && end + |END| <= |text|
  {
  }

  lemma Pieces(text: string, i: nat, j: nat, n: nat)
    requires i <= j && j + n <= |text|
    ensures text == text[..i] + text[i..j] + text[j..][..n] + text[j..][n..]
  {
  }

  // After any successful sync the file carries one found and verified region, and one more sync
  // gives what it would have given without the first: only the last sync shows.
  lemma LastSyncWins(content: Option<string>, first: string, last: string, digest: Digest)
    requires HexDigest(digest) && GoodBody(first) && GoodBody(last)
    requires Synced(content, Printed(first, digest), digest).Ok?
    ensures
      var text := Synced(content, Printed(first, digest), digest).value;
      && FrameOf(Some(text), digest).Ok? && FrameOf(Some(text), digest).value.status == Updated
      && Synced(Some(text), Printed(last, digest), digest) == Synced(content, Printed(last, digest), digest)
  {
    hide FrameOf, IsFrame, Printed, Surrounds, GoodBody;
    var frame := FrameOf(content, digest).value;
    FrameExact(content, frame, digest);
    FrameSurrounds(content, frame, digest);
    FrameIsKept(frame.before, first, frame.after, digest);
    FrameExact(Some(frame.before + Printed(first, digest) + frame.after), Frame(frame.before, frame.after, Updated), digest);
  }
}
