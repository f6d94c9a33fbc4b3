// What the log keeps, where a line goes and what is read back, event by event.
module TelemetryMeaning {
  import opened Ordering
  import opened StableSorting
  import opened TelemetryModel
  import opened TelemetryGc

  // ---- reading ----

  lemma {:induction false} SinceCounts(events: seq<Event>, since: int, e: Event)
    ensures multiset(Since(events, since))[e] == if e.timestamp >= since then multiset(events)[e] else 0
  {
    if events != [] {
      SinceCounts(events[1..], since, e);
      assert events == [events[0]] + events[1..];
      if events[0].timestamp >= since {
        assert multiset(Since(events, since))[e] == multiset([events[0]])[e] + multiset(Since(events[1..], since))[e];
      }
    }
  }

  // The events of one time and trace, in the order they stand.
  function SameKey(events: seq<Event>, timestamp: int, traceId: string): seq<Event> {
    if events == [] then []
    else if events[0].timestamp == timestamp && events[0].traceId == traceId then
      [events[0]] + SameKey(events[1..], timestamp, traceId)
    else SameKey(events[1..], timestamp, traceId)
  }

  lemma {:induction false} TiesAreSameKey(events: seq<Event>, x: Event)
    ensures Ties(events, x, Earlier) == SameKey(events, x.timestamp, x.traceId)
  {
    if events != [] {
      TiesAreSameKey(events[1..], x);
      TiedMeans(events[0], x);
      hide Earlier;
    }
  }

  lemma TiedMeans(a: Event, b: Event)
    ensures Tied(a, b, Earlier) <==> a.timestamp == b.timestamp && a.traceId == b.traceId
  {
    if a.timestamp == b.timestamp {
      if a.traceId != b.traceId {
        LessTotal(a.traceId, b.traceId);
      } else if Less(a.traceId, b.traceId) {
        LessAsymmetric(a.traceId, b.traceId);
      }
    }
  }

  lemma {:induction false} SinceKeepsKey(events: seq<Event>, since: int, timestamp: int, traceId: string)
    ensures SameKey(Since(events, since), timestamp, traceId) ==
      if timestamp >= since then SameKey(events, timestamp, traceId) else []
  {
    if events != [] {
      SinceKeepsKey(events[1..], since, timestamp, traceId);
    }
  }

  // What is read are exactly the retained events from the time on, as often as they are retained; earlier
  // times come first, at one time the lesser trace, and of one trace and time the events stand as they
  // were written.
  lemma ReadMeans(retained: seq<Event>, since: int, events: seq<Event>)
    requires IsStableSort(Since(retained, since), events, Earlier)
    ensures forall e :: multiset(events)[e] == if e.timestamp >= since then multiset(retained)[e] else 0
    ensures forall i, j :: 0 <= i < j < |events| ==>
      events[i].timestamp < events[j].timestamp
      || (events[i].timestamp == events[j].timestamp && !Less(events[j].traceId, events[i].traceId))
    ensures forall e: Event :: e.timestamp >= since ==>
      SameKey(events, e.timestamp, e.traceId) == SameKey(retained, e.timestamp, e.traceId)
  {
    forall e ensures multiset(events)[e] == if e.timestamp >= since then multiset(retained)[e] else 0 {
      SinceCounts(retained, since, e);
    }
    forall i, j | 0 <= i < j < |events| ensures events[i].timestamp < events[j].timestamp
      || (events[i].timestamp == events[j].timestamp && !Less(events[j].traceId, events[i].traceId)) {
      assert !Earlier(events[j], events[i]);
    }
    forall e: Event | e.timestamp >= since
      ensures SameKey(events, e.timestamp, e.traceId) == SameKey(retained, e.timestamp, e.traceId) {
      TiesAreSameKey(events, e);
      TiesAreSameKey(Since(retained, since), e);
      SinceKeepsKey(retained, since, e.timestamp, e.traceId);
    }
  }

  // ---- where a line goes ----

  // To the newest segment of its month while the two together stay within the limit, or the segment is
  // empty; else to a new one, numbered one more; to number 0 where the month has none.
  lemma LineGoes(segments: seq<Segment>, month: int, incoming: nat, maxBytes: nat, sequence: nat, newest: Segment)
    requires NextSegment(segments, month, incoming, maxBytes, sequence)
    requires newest in segments && newest.month == month && Listed(segments)
    requires forall s :: s in segments && s.month == month ==> s.sequence <= newest.sequence
    ensures Size(newest.events) + incoming <= maxBytes || Size(newest.events) == 0 ==> sequence == newest.sequence
    ensures Size(newest.events) + incoming > maxBytes && Size(newest.events) > 0 ==> sequence == newest.sequence + 1
  {
    var other :| other in segments && other.month == month
      && (forall s :: s in segments && s.month == month ==> s.sequence <= other.sequence)
      && sequence == other.sequence + if Size(other.events) > 0 && Size(other.events) + incoming > maxBytes then 1 else 0;
    var i :| 0 <= i < |segments| && segments[i] == newest;
    var j :| 0 <= j < |segments| && segments[j] == other;
    assert i == j;
  }

  lemma FirstLineGoes(segments: seq<Segment>, month: int, incoming: nat, maxBytes: nat, sequence: nat)
    requires NextSegment(segments, month, incoming, maxBytes, sequence)
    requires forall s :: s in segments ==> s.month != month
    ensures sequence == 0
  {
  }

  // ---- what is kept ----

  predicate Is(s: Segment, month: int, sequence: nat) {
    s.month == month && s.sequence == sequence
  }

  // Fewer than the retained number of months in the log are later.
  ghost predicate Young(segments: seq<Segment>, month: int, retained: nat) {
    |set s | s in segments && s.month > month :: s.month| < retained
  }

  // What stays of the young segments and the one just written when everything before s but the latter
  // is gone.
  ghost function From(segments: seq<Segment>, s: Segment, month: int, sequence: nat, retained: nat): seq<Segment> {
    Filter(segments, (t: Segment) =>
      Is(t, month, sequence)
      || (Young(segments, t.month, retained)
          && (t.month > s.month || (t.month == s.month && t.sequence >= s.sequence))))
  }

  // A complete collection keeps a segment exactly when it is the one just written, or its month is young
  // and what would stay with everything older removed is within the limit.
  lemma KeptExactly(
    segments: seq<Segment>, after: seq<Segment>, month: int, sequence: nat, retained: nat, maxTotal: nat, s: Segment)
    requires Listed(segments) && Retained(segments, after, month, sequence, retained, maxTotal) && s in segments
    ensures s in after <==>
      || Is(s, month, sequence)
      || (Young(segments, s.month, retained) && Total(From(segments, s, month, sequence, retained)) <= maxTotal)
  {
    var live := Unexpired(segments, month, sequence, retained);
    var keep := (t: Segment) => !Expired(segments, t.month, retained) || Names(t, month, sequence);
    FilterMembers(segments, keep);
    FilterListed(segments, keep);
    YoungMeans(segments, s.month, retained);
    var k :| 0 <= k <= |live| && Shrunk(live, after, k, month, sequence, maxTotal);
    if s in live {
      var p :| 0 <= p < |live| && live[p] == s;
      CutIsFrom(segments, live, p, month, sequence, retained);
      AfterCut(live, k, p, month, sequence);
      if k <= p {
        CutShrinks(live, k, p, month, sequence);
      }
    } else {
      AfterIsLive(live, after, k, month, sequence);
    }
  }

  lemma AfterIsLive(live: seq<Segment>, after: seq<Segment>, k: nat, month: int, sequence: nat)
    requires k <= |live| && after == Cut(live, k, month, sequence)
    ensures forall s :: s in after ==> s in live
  {
    FilterMembers(live[..k], NamesOf(month, sequence));
  }

  lemma YoungMeans(segments: seq<Segment>, month: int, retained: nat)
    ensures Young(segments, month, retained) <==> !Expired(segments, month, retained)
  {
    assert (set s | s in segments && s.month > month :: s.month) == MonthsAfter(segments, month);
  }

  lemma AfterCut(live: seq<Segment>, k: nat, p: nat, month: int, sequence: nat)
    requires Listed(live) && k <= |live| && p < |live|
    ensures live[p] in Cut(live, k, month, sequence) <==> p >= k || Names(live[p], month, sequence)
  {
    FilterMembers(live[..k], NamesOf(month, sequence));
    if p >= k {
      assert live[k..][p - k] == live[p];
    } else {
      assert live[..k][p] == live[p];
      forall q | k <= q < |live| ensures live[q] != live[p] {
      }
    }
  }

  lemma {:induction false} CutShrinks(live: seq<Segment>, k: nat, p: nat, month: int, sequence: nat)
    requires k <= p <= |live|
    ensures Total(Cut(live, p, month, sequence)) <= Total(Cut(live, k, month, sequence))
    decreases p
  {
    if k < p {
      CutShrinks(live, k, p - 1, month, sequence);
      CutNext(live, p - 1, month, sequence);
    }
  }

  lemma {:induction false} FilterTwice(segments: seq<Segment>, one: Segment -> bool, two: Segment -> bool, both: Segment -> bool)
    requires forall s :: s in segments ==> (both(s) <==> one(s) && two(s))
    ensures Filter(Filter(segments, one), two) == Filter(segments, both)
  {
    if segments != [] {
      FilterTwice(segments[1..], one, two, both);
      if one(segments[0]) {
        var rest := Filter(segments[1..], one);
        assert ([segments[0]] + rest)[1..] == rest;
      }
    }
  }

  lemma {:induction false} FilterSame(segments: seq<Segment>, one: Segment -> bool, two: Segment -> bool)
    requires forall s :: s in segments ==> (one(s) <==> two(s))
    ensures Filter(segments, one) == Filter(segments, two)
  {
    if segments != [] {
      FilterSame(segments[1..], one, two);
    }
  }

  lemma {:induction false} FilterAll(segments: seq<Segment>, keep: Segment -> bool)
    requires forall s :: s in segments ==> keep(s)
    ensures Filter(segments, keep) == segments
  {
    if segments != [] {
      FilterAll(segments[1..], keep);
    }
  }

  // In the order of the listing, what lies before the p-th segment stays by name alone.
  lemma LateIsCut(live: seq<Segment>, p: nat, month: int, sequence: nat, late: Segment -> bool)
    requires Listed(live) && p < |live|
    requires forall t :: late(t) <==> Names(t, month, sequence) || !Precedes(t.month, t.sequence, live[p])
    ensures Filter(live, late) == Cut(live, p, month, sequence)
  {
    ListedAround(live, p);
    hide Listed, Precedes, Names;
    assert live == live[..p] + live[p..];
    FilterConcat(live[..p], live[p..], late);
    FilterSame(live[..p], late, NamesOf(month, sequence));
    FilterAll(live[p..], late);
  }

  lemma ListedAround(live: seq<Segment>, p: nat)
    requires Listed(live) && p < |live|
    ensures forall t :: t in live[..p] ==> Precedes(t.month, t.sequence, live[p])
    ensures forall t :: t in live[p..] ==> !Precedes(t.month, t.sequence, live[p])
  {
    forall t | t in live[p..] ensures !Precedes(t.month, t.sequence, live[p]) {
      var q :| 0 <= q < |live| - p && live[p..][q] == t;
      assert q == 0 || Precedes(live[p].month, live[p].sequence, live[p + q]);
    }
  }

  lemma CutIsFrom(segments: seq<Segment>, live: seq<Segment>, p: nat, month: int, sequence: nat, retained: nat)
    requires Listed(live) && live == Unexpired(segments, month, sequence, retained) && p < |live|
    ensures Cut(live, p, month, sequence) == From(segments, live[p], month, sequence, retained)
  {
    var s := live[p];
    var keep := (t: Segment) => !Expired(segments, t.month, retained) || Names(t, month, sequence);
    var late := (t: Segment) => Names(t, month, sequence) || !Precedes(t.month, t.sequence, s);
    var both := (t: Segment) =>
      Is(t, month, sequence)
      || (Young(segments, t.month, retained)
          && (t.month > s.month || (t.month == s.month && t.sequence >= s.sequence)));
    LateIsCut(live, p, month, sequence, late);
    hide Listed, Cut, Filter, Expired, Young;
    forall t | t in segments ensures both(t) <==> keep(t) && late(t) {
      YoungMeans(segments, t.month, retained);
    }
    FilterTwice(segments, keep, late, both);
  }
}
