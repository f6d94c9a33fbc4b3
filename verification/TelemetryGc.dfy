// What retention keeps, and the order in which events are read back.
module TelemetryGc {
  import opened Ordering
  import opened Digraph
  import opened StableSorting
  import opened TelemetryModel

  ghost function Months(segments: seq<Segment>): set<int> {
    set s | s in segments :: s.month
  }

  ghost function MonthsAfter(segments: seq<Segment>, month: int): set<int> {
    set m | m in Months(segments) && m > month
  }

  // A month expires once enough later months have events.
  ghost predicate Expired(segments: seq<Segment>, month: int, retained: nat) {
    |MonthsAfter(segments, month)| >= retained
  }

  ghost function Filter(segments: seq<Segment>, keep: Segment -> bool): seq<Segment> {
    if segments == [] then []
    else if keep(segments[0]) then [segments[0]] + Filter(segments[1..], keep)
    else Filter(segments[1..], keep)
  }

  lemma {:induction false} FilterConcat(a: seq<Segment>, b: seq<Segment>, keep: Segment -> bool)
    ensures Filter(a + b, keep) == Filter(a, keep) + Filter(b, keep)
  {
    if a == [] {
      assert a + b == b;
    } else {
      assert (a + b)[1..] == a[1..] + b;
      FilterConcat(a[1..], b, keep);
    }
  }

  lemma FilterNext(segments: seq<Segment>, i: nat, keep: Segment -> bool)
    requires i < |segments|
    ensures Filter(segments[..i + 1], keep)
         == Filter(segments[..i], keep) + if keep(segments[i]) then [segments[i]] else []
  {
    assert segments[..i + 1] == segments[..i] + [segments[i]];
    FilterConcat(segments[..i], [segments[i]], keep);
    assert Filter([segments[i]], keep) == if keep(segments[i]) then [segments[i]] else [];
  }

  lemma {:induction false} FilterMembers(segments: seq<Segment>, keep: Segment -> bool)
    ensures forall s :: s in Filter(segments, keep) <==> s in segments && keep(s)
  {
    if segments != [] {
      FilterMembers(segments[1..], keep);
      assert segments == [segments[0]] + segments[1..];
    }
  }

  ghost function NamesOf(month: int, sequence: nat): Segment -> bool {
    (s: Segment) => Names(s, month, sequence)
  }

  // What the month rule leaves; the segment just written always stays.
  ghost function Unexpired(segments: seq<Segment>, month: int, sequence: nat, retained: nat): seq<Segment> {
    Filter(segments, (s: Segment) => !Expired(segments, s.month, retained) || Names(s, month, sequence))
  }

  // The listing once its first k segments, the one just written excepted, are gone.
  ghost function Cut(segments: seq<Segment>, k: nat, month: int, sequence: nat): seq<Segment>
    requires k <= |segments|
  {
    Filter(segments[..k], NamesOf(month, sequence)) + segments[k..]
  }

  // Removing from the oldest on, and only as long as the total is too large.
  ghost predicate Shrunk(segments: seq<Segment>, after: seq<Segment>, k: nat, month: int, sequence: nat, maxTotal: nat)
    requires k <= |segments|
  {
    && after == Cut(segments, k, month, sequence)
    && (Total(after) <= maxTotal || k == |segments|)
    && TooLargeBefore(segments, k, month, sequence, maxTotal)
  }

  ghost predicate TooLargeBefore(segments: seq<Segment>, k: nat, month: int, sequence: nat, maxTotal: nat)
    requires k <= |segments|
  {
    forall j :: 0 <= j < k ==> Total(Cut(segments, j, month, sequence)) > maxTotal
  }

  lemma TooLargeNext(segments: seq<Segment>, k: nat, month: int, sequence: nat, maxTotal: nat)
    requires k < |segments| && TooLargeBefore(segments, k, month, sequence, maxTotal)
    requires Total(Cut(segments, k, month, sequence)) > maxTotal
    ensures TooLargeBefore(segments, k + 1, month, sequence, maxTotal)
  {
  }

  ghost predicate ShrunkTo(segments: seq<Segment>, after: seq<Segment>, month: int, sequence: nat, maxTotal: nat) {
    exists k :: 0 <= k <= |segments| && Shrunk(segments, after, k, month, sequence, maxTotal)
  }

  ghost predicate Retained(segments: seq<Segment>, after: seq<Segment>, month: int, sequence: nat,
                           retained: nat, maxTotal: nat)
  {
    ShrunkTo(Unexpired(segments, month, sequence, retained), after, month, sequence, maxTotal)
  }

  lemma CutNext(segments: seq<Segment>, k: nat, month: int, sequence: nat)
    requires k < |segments|
    ensures
      var named := Names(segments[k], month, sequence);
      && (named ==> Cut(segments, k + 1, month, sequence) == Cut(segments, k, month, sequence))
      && Total(Cut(segments, k + 1, month, sequence))
         == Total(Cut(segments, k, month, sequence)) - if named then 0 else Size(segments[k].events)
  {
    var kept := Filter(segments[..k], NamesOf(month, sequence));
    FilterNext(segments, k, NamesOf(month, sequence));
    assert segments[k..] == [segments[k]] + segments[k + 1..];
    TotalConcat(kept, segments[k..]);
    TotalConcat([segments[k]], segments[k + 1..]);
    TotalConcat(kept, segments[k + 1..]);
    assert Total([segments[k]]) == Size(segments[k].events);
    if !Names(segments[k], month, sequence) {
      assert kept + [] == kept;
    } else {
      assert kept + [segments[k]] + segments[k + 1..] == kept + segments[k..];
    }
  }

  // Part of the listing, in the listing's order, with the segment just written in it.
  ghost predicate PartOf(after: seq<Segment>, segments: seq<Segment>, month: int, sequence: nat) {
    && Listed(after)
    && (forall s :: s in after ==> s in segments)
    && (forall s :: s in segments && Names(s, month, sequence) ==> s in after)
  }

  ghost predicate PartThenRest(kept: seq<Segment>, segments: seq<Segment>, i: nat, month: int, sequence: nat)
    requires i <= |segments|
  {
    PartOf(kept, segments[..i], month, sequence)
  }

  lemma PartNext(kept: seq<Segment>, segments: seq<Segment>, i: nat, month: int, sequence: nat)
    requires i < |segments| && Listed(segments) && PartThenRest(kept, segments, i, month, sequence)
    ensures PartThenRest(kept + [segments[i]], segments, i + 1, month, sequence)
    ensures !Names(segments[i], month, sequence) ==> PartThenRest(kept, segments, i + 1, month, sequence)
  {
    assert segments[..i + 1] == segments[..i] + [segments[i]];
    forall j | 0 <= j < |kept| ensures Precedes(kept[j].month, kept[j].sequence, segments[i]) {
      assert kept[j] in segments[..i];
    }
  }

  lemma PartAndRest(kept: seq<Segment>, segments: seq<Segment>, i: nat, month: int, sequence: nat)
    requires i <= |segments| && Listed(segments) && PartThenRest(kept, segments, i, month, sequence)
    ensures PartOf(kept + segments[i..], segments, month, sequence)
  {
    var after := kept + segments[i..];
    assert segments == segments[..i] + segments[i..];
    forall p, q | 0 <= p < q < |after| ensures Precedes(after[p].month, after[p].sequence, after[q]) {
      if p < |kept| <= q {
        assert kept[p] in segments[..i];
        var o :| 0 <= o < i && segments[o] == kept[p];
        assert after[q] == segments[i + q - |kept|];
      }
    }
  }

  lemma PartTransitive(a: seq<Segment>, b: seq<Segment>, c: seq<Segment>, month: int, sequence: nat)
    requires PartOf(a, b, month, sequence) && PartOf(b, c, month, sequence)
    ensures PartOf(a, c, month, sequence)
  {
  }

  // After a complete collection the log fits its limit, or only the segment just written is left.
  lemma RetainedFits(segments: seq<Segment>, after: seq<Segment>, month: int, sequence: nat, retained: nat, maxTotal: nat)
    requires Retained(segments, after, month, sequence, retained, maxTotal)
    ensures Total(after) <= maxTotal || forall s :: s in after ==> Names(s, month, sequence)
  {
    var live := Unexpired(segments, month, sequence, retained);
    var k :| 0 <= k <= |live| && Shrunk(live, after, k, month, sequence, maxTotal);
    FilterMembers(live[..k], NamesOf(month, sequence));
  }

  // The size rule removes the oldest first: what it removed precedes everything it kept, except
  // the segment just written.
  lemma OldestGoFirst(segments: seq<Segment>, after: seq<Segment>, month: int, sequence: nat, retained: nat, maxTotal: nat,
                      gone: Segment, kept: Segment)
    requires Listed(segments) && Retained(segments, after, month, sequence, retained, maxTotal)
    requires gone in segments && !Expired(segments, gone.month, retained) && gone !in after
    requires kept in after && !Names(kept, month, sequence)
    ensures Precedes(gone.month, gone.sequence, kept)
  {
    var keep := (s: Segment) => !Expired(segments, s.month, retained) || Names(s, month, sequence);
    var live := Unexpired(segments, month, sequence, retained);
    FilterMembers(segments, keep);
    FilterListed(segments, keep);
    var k :| 0 <= k <= |live| && Shrunk(live, after, k, month, sequence, maxTotal);
    FilterMembers(live[..k], NamesOf(month, sequence));
    assert live == live[..k] + live[k..];
    assert kept in live[k..] && gone in live[..k];
  }

  lemma {:induction false} FilterListed(segments: seq<Segment>, keep: Segment -> bool)
    requires Listed(segments)
    ensures Listed(Filter(segments, keep))
  {
    if segments != [] {
      FilterListed(segments[1..], keep);
      FilterMembers(segments[1..], keep);
      var rest := Filter(segments[1..], keep);
      forall i | 0 <= i < |rest| ensures Precedes(segments[0].month, segments[0].sequence, rest[i]) {
        assert rest[i] in segments[1..];
      }
    }
  }

  // Nothing unexpired is removed from a log that fits its limit.
  lemma FittingLogIsKept(segments: seq<Segment>, after: seq<Segment>, month: int, sequence: nat, retained: nat, maxTotal: nat)
    requires Retained(segments, after, month, sequence, retained, maxTotal)
    requires Total(Unexpired(segments, month, sequence, retained)) <= maxTotal
    ensures after == Unexpired(segments, month, sequence, retained)
  {
    var live := Unexpired(segments, month, sequence, retained);
    var k :| 0 <= k <= |live| && Shrunk(live, after, k, month, sequence, maxTotal);
    assert Cut(live, 0, month, sequence) == live;
  }

  // Of months other than the one just written to, at most the retained number survive.
  lemma MonthsBounded(segments: seq<Segment>, after: seq<Segment>, month: int, sequence: nat, retained: nat, maxTotal: nat)
    requires Retained(segments, after, month, sequence, retained, maxTotal)
    ensures |Months(after) - {month}| <= retained
  {
    SurvivorsUnexpired(segments, after, month, sequence, retained, maxTotal);
    hide Retained, Expired;
    var left := Months(after) - {month};
    if left != {} {
      var least := LeastOf(left);
      var s :| s in after && s.month == least;
      assert |MonthsAfter(segments, least)| < retained;
      assert left - {least} <= MonthsAfter(segments, least);
      SubsetSize(left - {least}, MonthsAfter(segments, least));
    }
  }

  lemma SurvivorsUnexpired(segments: seq<Segment>, after: seq<Segment>, month: int, sequence: nat, retained: nat, maxTotal: nat)
    requires Retained(segments, after, month, sequence, retained, maxTotal)
    ensures forall s :: s in after ==> s in segments
    ensures forall s :: s in after && s.month != month ==> |MonthsAfter(segments, s.month)| < retained
  {
    var live := Unexpired(segments, month, sequence, retained);
    var keep := (s: Segment) => !Expired(segments, s.month, retained) || Names(s, month, sequence);
    FilterMembers(segments, keep);
    var k :| 0 <= k <= |live| && Shrunk(live, after, k, month, sequence, maxTotal);
    FilterMembers(live[..k], NamesOf(month, sequence));
    assert live == live[..k] + live[k..];
    forall s | s in after ensures s in segments && (s.month != month ==> |MonthsAfter(segments, s.month)| < retained) {
      assert s in live && keep(s);
    }
  }

  lemma Member<T>(s: set<T>) returns (x: T)
    requires s != {}
    ensures x in s
  {
    x :| x in s;
  }

  lemma {:induction false} LeastOf(s: set<int>) returns (x: int)
    requires s != {}
    ensures x in s && forall y :: y in s ==> x <= y
    decreases |s|
  {
    x := Member(s);
    if s != {x} {
      var rest := s - {x};
      assert s == {x} + rest;
      var y := LeastOf(rest);
      if y < x {
        x := y;
      }
    }
  }

  // The order of reading: by time stamp, then by trace id.
  predicate Earlier(a: Event, b: Event) {
    a.timestamp < b.timestamp || (a.timestamp == b.timestamp && Less(a.traceId, b.traceId))
  }

  lemma EarlierIsStrictWeak()
    ensures StrictWeak(Earlier)
  {
    forall a, b | Earlier(a, b) ensures !Earlier(b, a) {
      if a.timestamp == b.timestamp {
        LessAsymmetric(a.traceId, b.traceId);
      }
    }
    forall a, b, c | Earlier(a, c) ensures Earlier(a, b) || Earlier(b, c) {
      if a.timestamp == b.timestamp == c.timestamp && !Less(a.traceId, b.traceId) && a.traceId != b.traceId {
        LessTotal(a.traceId, b.traceId);
        LessTransitive(b.traceId, a.traceId, c.traceId);
      }
    }
  }

  // The events at or after a time, in the order they stand.
  function Since(events: seq<Event>, since: int): seq<Event> {
    if events == [] then []
    else if events[0].timestamp >= since then [events[0]] + Since(events[1..], since)
    else Since(events[1..], since)
  }

  lemma {:induction false} SinceConcat(a: seq<Event>, b: seq<Event>, since: int)
    ensures Since(a + b, since) == Since(a, since) + Since(b, since)
  {
    if a == [] {
      assert a + b == b;
    } else {
      assert (a + b)[1..] == a[1..] + b;
      SinceConcat(a[1..], b, since);
    }
  }

  lemma {:induction false} NoneSince(events: seq<Event>, since: int)
    requires forall i :: 0 <= i < |events| ==> events[i].timestamp < since
    ensures Since(events, since) == []
  {
    if events != [] {
      NoneSince(events[1..], since);
    }
  }
}
