// Emit, the collection of old segments, and ReadSince.
module TelemetryStore {
  import opened Ordering
  import opened Digraph
  import opened StableSorting
  import opened TelemetryModel
  import opened TelemetryGc
  import opened TelemetryMeaning

  const MAX_SEGMENT_BYTES: nat := 0x80_0000
  const MAX_TOTAL_BYTES: nat := 0x800_0000
  const RETAINED_MONTHS: nat := 12

  // What one Emit did: where the line went, what the log was right after the append, and what the
  // collection left of it.
  ghost predicate Emitted(before: seq<Segment>, after: seq<Segment>, event: Event, month: int, sequence: nat,
                          maxSegment: nat, maxTotal: nat, retained: nat, complete: bool)
  {
    var appended := Appended(before, month, sequence, event);
    && NextSegment(before, month, event.bytes, maxSegment, sequence)
    && PartOf(after, appended, month, sequence)
    && (complete ==> Retained(appended, after, month, sequence, retained, maxTotal))
  }

  class Store {
    const maxSegmentBytes: nat
    const maxTotalBytes: nat
    const retainedMonths: nat
    var segments: seq<Segment>

    constructor (segmentBytes: int, totalBytes: int, months: int)
      ensures segments == []
      ensures maxSegmentBytes == (if segmentBytes <= 0 then 8 * 1024 * 1024 else segmentBytes)
      ensures maxTotalBytes == (if totalBytes <= 0 then 128 * 1024 * 1024 else totalBytes)
      ensures retainedMonths == (if months <= 0 then 12 else months)
    {
      maxSegmentBytes := if segmentBytes <= 0 then MAX_SEGMENT_BYTES else segmentBytes;
      maxTotalBytes := if totalBytes <= 0 then MAX_TOTAL_BYTES else totalBytes;
      retainedMonths := if months <= 0 then RETAINED_MONTHS else months;
      segments := [];
    }

    ghost predicate Valid(monthOf: MonthOf)
      reads this
    {
      SegmentsOk(segments, monthOf, maxSegmentBytes)
    }

    method NextSegmentOf(month: int, incoming: nat) returns (sequence: nat)
      ensures NextSegment(segments, month, incoming, maxSegmentBytes, sequence)
    {
      var newest := -1;
      for i := 0 to |segments|
        invariant -1 <= newest < i
        invariant newest < 0 ==> forall j :: 0 <= j < i ==> segments[j].month != month
        invariant newest >= 0 ==> segments[newest].month == month
        invariant newest >= 0 ==>
          forall j :: 0 <= j < i && segments[j].month == month ==> segments[j].sequence <= segments[newest].sequence
      {
        if segments[i].month == month && (newest < 0 || segments[i].sequence > segments[newest].sequence) {
          newest := i;
        }
      }
      if newest < 0 {
        return 0;
      }
      assert segments[newest] in segments;
      var size := Size(segments[newest].events);
      sequence := segments[newest].sequence + if size > 0 && size + incoming > maxSegmentBytes then 1 else 0;
    }

    // The months beyond the retained number, oldest first.
    method ExpiredMonths() returns (cut: seq<int>)
      requires Listed(segments)
      ensures forall m :: m in cut <==> m in Months(segments) && Expired(segments, m, retainedMonths)
    {
      var months: seq<int> := [];
      for i := 0 to |segments|
        invariant MonthNames(segments, i, months)
      {
        MonthNamesNext(segments, i, months);
        if months == [] || months[|months| - 1] != segments[i].month {
          months := months + [segments[i].month];
        }
      }
      cut := if |months| > retainedMonths then months[..|months| - retainedMonths] else [];
      MonthNamesComplete(segments, months);
      forall k | 0 <= k < |months|
        ensures Expired(segments, months[k], retainedMonths) <==> k < |months| - retainedMonths
      {
        MonthsAbove(segments, months, k);
      }
      CutMeans(segments, months, cut, retainedMonths);
    }

    // gcLocked. removals is the number of removals that succeed before one fails.
    method Collect(month: int, sequence: nat, removals: nat) returns (complete: bool)
      requires Listed(segments)
      modifies this`segments
      ensures PartOf(segments, old(segments), month, sequence)
      ensures complete ==> Retained(old(segments), segments, month, sequence, retainedMonths, maxTotalBytes)
      ensures removals >= |old(segments)| ==> complete
    {
      ghost var before := segments;
      var cut := ExpiredMonths();
      var left := removals;
      complete, left := RemoveExpired(month, sequence, cut, removals);
      if !complete {
        return;
      }
      ghost var live := segments;
      complete := RemoveOldest(month, sequence, left);
      PartTransitive(segments, live, before, month, sequence);
    }

    method RemoveExpired(month: int, sequence: nat, cut: seq<int>, removals: nat) returns (complete: bool, left: nat)
      requires Listed(segments)
      requires forall m :: m in cut <==> m in Months(segments) && Expired(segments, m, retainedMonths)
      modifies this`segments
      ensures PartOf(segments, old(segments), month, sequence)
      ensures complete ==> segments == Unexpired(old(segments), month, sequence, retainedMonths)
      ensures complete && removals >= |old(segments)| ==> left >= |segments|
      ensures removals >= |old(segments)| ==> complete
    {
      var all := segments;
      ghost var keep := (s: Segment) => !Expired(all, s.month, retainedMonths) || Names(s, month, sequence);
      var kept: seq<Segment> := [];
      left := removals;
      for i := 0 to |all|
        invariant segments == all
        invariant kept == Filter(all[..i], keep) && PartThenRest(kept, all, i, month, sequence)
        invariant left + i - |kept| == removals && |kept| <= i
      {
        FilterNext(all, i, keep);
        PartNext(kept, all, i, month, sequence);
        assert all[i].month in Months(all);
        if all[i].month in cut && !Names(all[i], month, sequence) {
          if left == 0 {
            segments := kept + all[i..];
            PartAndRest(kept, all, i, month, sequence);
            return false, 0;
          }
          left := left - 1;
        } else {
          kept := kept + [all[i]];
        }
      }
      assert all[..|all|] == all;
      segments := kept;
      complete := true;
    }

    method RemoveOldest(month: int, sequence: nat, removals: nat) returns (complete: bool)
      requires Listed(segments)
      modifies this`segments
      ensures PartOf(segments, old(segments), month, sequence)
      ensures complete ==> ShrunkTo(old(segments), segments, month, sequence, maxTotalBytes)
      ensures removals >= |old(segments)| ==> complete
    {
      var live := segments;
      var total := Total(live);
      var kept: seq<Segment> := [];
      var i, left := 0, removals;
      ShrinkStart(live, month, sequence, maxTotalBytes);
      hide *;
      while i < |live| && total > maxTotalBytes
        invariant i <= |live| && segments == live
        invariant Shrinking(live, i, kept, total, month, sequence, maxTotalBytes)
        invariant left + i >= removals
      {
        ShrinkNext(live, i, kept, total, month, sequence, maxTotalBytes);
        if Names(live[i], month, sequence) {
          kept := kept + [live[i]];
        } else {
          if left == 0 {
            segments := kept + live[i..];
            ShrinkStops(live, i, kept, total, month, sequence, maxTotalBytes);
            return false;
          }
          left := left - 1;
          total := total - Size(live[i].events);
        }
        i := i + 1;
      }
      segments := kept + live[i..];
      ShrinkStops(live, i, kept, total, month, sequence, maxTotalBytes);
      complete := true;
    }

    // sequence names the segment the line went to.
    method Emit(event: Event, monthOf: MonthOf, enabled: bool, writable: bool, removals: nat)
        returns (ok: bool, ghost sequence: nat)
      requires Valid(monthOf) && event.bytes > 0
      modifies this`segments
      ensures Valid(monthOf)
      ensures !enabled || !writable ==> segments == old(segments) && ok == !enabled
      ensures enabled && writable ==>
        Emitted(old(segments), segments, event, monthOf(event.timestamp), sequence,
                maxSegmentBytes, maxTotalBytes, retainedMonths, ok)
      ensures enabled && writable ==> Has(segments, monthOf(event.timestamp), sequence, event)
      ensures enabled && ok ==>
        Total(segments) <= maxTotalBytes || forall s :: s in segments ==> Names(s, monthOf(event.timestamp), sequence)
      ensures enabled && writable && removals > |old(segments)| ==> ok
    {
      sequence := 0;
      if !enabled {
        return true, sequence;
      }
      var month := monthOf(event.timestamp);
      var next := NextSegmentOf(month, event.bytes);
      sequence := next;
      if !writable {
        return false, sequence;
      }
      NextHasRoom(segments, month, event.bytes, maxSegmentBytes, next);
      AppendKeepsOrder(segments, month, next, event);
      AppendKeepsBounds(segments, month, next, event, monthOf, maxSegmentBytes);
      AppendAddsEvent(segments, month, next, event);
      AppendLength(segments, month, next, event);
      segments := Appended(segments, month, next, event);
      ghost var appended := segments;
      ok := Collect(month, next, removals);
      if ok {
        RetainedFits(appended, segments, month, next, retainedMonths, maxTotalBytes);
      }
    }

    method ReadSince(since: int, monthOf: MonthOf) returns (events: seq<Event>)
      requires Valid(monthOf) && Monotone(monthOf)
      ensures IsStableSort(Since(All(segments), since), events, Earlier)
      ensures forall e :: multiset(events)[e] == if e.timestamp >= since then multiset(All(segments))[e] else 0
      ensures forall i, j :: 0 <= i < j < |events| ==>
        events[i].timestamp < events[j].timestamp
        || (events[i].timestamp == events[j].timestamp && !Less(events[j].traceId, events[i].traceId))
    {
      var found: seq<Event> := [];
      for i := 0 to |segments|
        invariant found == Since(All(segments[..i]), since)
      {
        assert segments[..i + 1] == segments[..i] + [segments[i]];
        TotalConcat(segments[..i], [segments[i]]);
        assert All([segments[i]]) == segments[i].events;
        SinceConcat(All(segments[..i]), segments[i].events, since);
        if segments[i].month < monthOf(since) {
          assert SegmentOk(segments[i], monthOf, maxSegmentBytes);
          NoneSince(segments[i].events, since);
        } else {
          found := found + Since(segments[i].events, since);
        }
      }
      assert segments[..|segments|] == segments;
      EarlierIsStrictWeak();
      SortIsStable(found, Earlier);
      events := Sort(found, Earlier);
      ReadMeans(All(segments), since, events);
    }
  }

  // The state of the size rule after the first i segments.
  ghost predicate Shrinking(live: seq<Segment>, i: nat, kept: seq<Segment>, total: int, month: int, sequence: nat,
                            maxTotal: nat)
    requires i <= |live|
  {
    && Listed(live)
    && kept == Filter(live[..i], NamesOf(month, sequence))
    && total == Total(Cut(live, i, month, sequence))
    && TooLargeBefore(live, i, month, sequence, maxTotal)
    && PartThenRest(kept, live, i, month, sequence)
  }

  lemma ShrinkStart(live: seq<Segment>, month: int, sequence: nat, maxTotal: nat)
    requires Listed(live)
    ensures Shrinking(live, 0, [], Total(live), month, sequence, maxTotal)
  {
    assert Cut(live, 0, month, sequence) == live;
  }

  lemma ShrinkNext(live: seq<Segment>, i: nat, kept: seq<Segment>, total: int, month: int, sequence: nat, maxTotal: nat)
    requires i < |live| && Shrinking(live, i, kept, total, month, sequence, maxTotal) && total > maxTotal
    ensures if Names(live[i], month, sequence)
      then Shrinking(live, i + 1, kept + [live[i]], total, month, sequence, maxTotal)
      else Shrinking(live, i + 1, kept, total - Size(live[i].events), month, sequence, maxTotal)
  {
    CutNext(live, i, month, sequence);
    TooLargeNext(live, i, month, sequence, maxTotal);
    FilterNext(live, i, NamesOf(month, sequence));
    PartNext(kept, live, i, month, sequence);
    hide Total, Filter, Cut, TooLargeBefore, PartThenRest, Listed;
    assert kept + [] == kept;
  }

  lemma ShrinkStops(live: seq<Segment>, i: nat, kept: seq<Segment>, total: int, month: int, sequence: nat, maxTotal: nat)
    requires i <= |live| && Shrinking(live, i, kept, total, month, sequence, maxTotal)
    ensures PartOf(kept + live[i..], live, month, sequence)
    ensures total <= maxTotal || i == |live| ==> ShrunkTo(live, kept + live[i..], month, sequence, maxTotal)
  {
    PartAndRest(kept, live, i, month, sequence);
    if total <= maxTotal || i == |live| {
      assert Shrunk(live, kept + live[i..], i, month, sequence, maxTotal);
    }
  }

  // The distinct months of the first i segments, ascending.
  ghost predicate MonthNames(segments: seq<Segment>, i: nat, months: seq<int>)
    requires i <= |segments|
  {
    && (forall j, k :: 0 <= j < k < |months| ==> months[j] < months[k])
    && (forall m :: m in months <==> m in Months(segments[..i]))
    && (i > 0 ==> months != [] && months[|months| - 1] == segments[i - 1].month)
  }

  lemma MonthNamesNext(segments: seq<Segment>, i: nat, months: seq<int>)
    requires Listed(segments) && i < |segments| && MonthNames(segments, i, months)
    ensures
      var month := segments[i].month;
      MonthNames(segments, i + 1, if months == [] || months[|months| - 1] != month then months + [month] else months)
  {
    assert segments[..i + 1] == segments[..i] + [segments[i]];
    if months != [] {
      assert months[|months| - 1] in months;
      assert months[|months| - 1] in Months(segments[..i]);
      assert i > 0 && Precedes(segments[i - 1].month, segments[i - 1].sequence, segments[i]);
    }
  }

  lemma MonthNamesComplete(segments: seq<Segment>, months: seq<int>)
    requires MonthNames(segments, |segments|, months)
    ensures forall m :: m in months <==> m in Months(segments)
  {
    assert segments[..|segments|] == segments;
  }

  lemma MonthsAbove(segments: seq<Segment>, months: seq<int>, k: nat)
    requires forall i, j :: 0 <= i < j < |months| ==> months[i] < months[j]
    requires forall m :: m in months <==> m in Months(segments)
    requires k < |months|
    ensures |MonthsAfter(segments, months[k])| == |months| - 1 - k
  {
    var above := months[k + 1..];
    DistinctLength(above);
    forall m ensures m in Elements(above) <==> m in MonthsAfter(segments, months[k]) {
      if m in MonthsAfter(segments, months[k]) {
        var i :| 0 <= i < |months| && months[i] == m;
        assert i > k;
        assert above[i - k - 1] == m;
      }
      if m in above {
        var i :| 0 <= i < |above| && above[i] == m;
        assert months[k + 1 + i] == m;
      }
    }
    assert Elements(above) == MonthsAfter(segments, months[k]);
  }

  lemma CutMeans(segments: seq<Segment>, months: seq<int>, cut: seq<int>, retained: nat)
    requires forall m :: m in months <==> m in Months(segments)
    requires forall i, j :: 0 <= i < j < |months| ==> months[i] < months[j]
    requires cut == if |months| > retained then months[..|months| - retained] else []
    requires forall k :: 0 <= k < |months| ==>
      (Expired(segments, months[k], retained) <==> k < |months| - retained)
    ensures forall m :: m in cut <==> m in Months(segments) && Expired(segments, m, retained)
  {
    forall m | m in Months(segments) ensures m in cut <==> Expired(segments, m, retained) {
      var k :| 0 <= k < |months| && months[k] == m;
      if |months| > retained && k < |months| - retained {
        assert months[..|months| - retained][k] == m;
      }
    }
  }

  lemma {:induction false} AppendLength(segments: seq<Segment>, month: int, sequence: nat, event: Event)
    ensures |Appended(segments, month, sequence, event)| <= |segments| + 1
  {
    if segments != [] {
      AppendLength(segments[1..], month, sequence, event);
    }
  }
}
