// The segmented telemetry log: events in segment files named by month and sequence number.
module TelemetryModel {

  // bytes is the length of the event's encoded line.
  datatype Event = Event(timestamp: int, traceId: string, payload: string, bytes: nat)

  datatype Segment = Segment(month: int, sequence: nat, events: seq<Event>)

  // The UTC month of a time stamp, YYYY-MM in the file names.
  type MonthOf = int -> int

  ghost predicate Monotone(monthOf: MonthOf) {
    forall s, t :: s <= t ==> monthOf(s) <= monthOf(t)
  }

  function Size(events: seq<Event>): nat {
    if events == [] then 0 else events[0].bytes + Size(events[1..])
  }

  function Total(segments: seq<Segment>): nat {
    if segments == [] then 0 else Size(segments[0].events) + Total(segments[1..])
  }

  function All(segments: seq<Segment>): seq<Event> {
    if segments == [] then [] else segments[0].events + All(segments[1..])
  }

  lemma {:induction false} SizeConcat(a: seq<Event>, b: seq<Event>)
    ensures Size(a + b) == Size(a) + Size(b)
  {
    if a == [] {
      assert a + b == b;
    } else {
      assert (a + b)[1..] == a[1..] + b;
      SizeConcat(a[1..], b);
    }
  }

  lemma {:induction false} TotalConcat(a: seq<Segment>, b: seq<Segment>)
    ensures Total(a + b) == Total(a) + Total(b) && All(a + b) == All(a) + All(b)
  {
    if a == [] {
      assert a + b == b;
    } else {
      assert (a + b)[1..] == a[1..] + b;
      TotalConcat(a[1..], b);
    }
  }

  predicate Precedes(month: int, sequence: nat, s: Segment) {
    month < s.month || (month == s.month && sequence < s.sequence)
  }

  predicate Names(s: Segment, month: int, sequence: nat) {
    s.month == month && s.sequence == sequence
  }

  // The directory listing: by month, then by sequence number.
  ghost predicate Listed(segments: seq<Segment>) {
    forall i, j :: 0 <= i < j < |segments| ==> Precedes(segments[i].month, segments[i].sequence, segments[j])
  }

  // Every segment holds events of its own month, and more than maxBytes only as a single event.
  ghost predicate SegmentOk(s: Segment, monthOf: MonthOf, maxBytes: nat) {
    && s.events != [] && Size(s.events) > 0
    && (forall i :: 0 <= i < |s.events| ==> monthOf(s.events[i].timestamp) == s.month)
    && (Size(s.events) <= maxBytes || |s.events| == 1)
  }

  ghost predicate SegmentsOk(segments: seq<Segment>, monthOf: MonthOf, maxBytes: nat) {
    Listed(segments) && forall s :: s in segments ==> SegmentOk(s, monthOf, maxBytes)
  }

  // Appending a line to the file of a month and sequence number, created if it does not exist.
  function Appended(segments: seq<Segment>, month: int, sequence: nat, event: Event): seq<Segment> {
    if segments == [] || Precedes(month, sequence, segments[0]) then [Segment(month, sequence, [event])] + segments
    else if Names(segments[0], month, sequence) then
      [segments[0].(events := segments[0].events + [event])] + segments[1..]
    else [segments[0]] + Appended(segments[1..], month, sequence, event)
  }

  // Which segment the next line of a month goes to: the newest of the month while the line fits
  // or the segment is empty, else one more; the first if the month has none.
  ghost predicate NextSegment(segments: seq<Segment>, month: int, incoming: nat, maxBytes: nat, sequence: nat) {
    if exists s :: s in segments && s.month == month then
      exists newest :: newest in segments && newest.month == month
        && (forall s :: s in segments && s.month == month ==> s.sequence <= newest.sequence)
        && sequence == newest.sequence
             + if Size(newest.events) > 0 && Size(newest.events) + incoming > maxBytes then 1 else 0
    else sequence == 0
  }

  // The file appended to has room for the line, or did not exist.
  ghost predicate RoomIn(segments: seq<Segment>, month: int, sequence: nat, incoming: nat, maxBytes: nat) {
    forall s :: s in segments && Names(s, month, sequence) ==>
      Size(s.events) + incoming <= maxBytes || Size(s.events) == 0
  }

  lemma NextHasRoom(segments: seq<Segment>, month: int, incoming: nat, maxBytes: nat, sequence: nat)
    requires Listed(segments) && NextSegment(segments, month, incoming, maxBytes, sequence)
    ensures RoomIn(segments, month, sequence, incoming, maxBytes)
  {
    forall s | s in segments && Names(s, month, sequence)
      ensures Size(s.events) + incoming <= maxBytes || Size(s.events) == 0
    {
      var newest :| newest in segments && newest.month == month
        && (forall s :: s in segments && s.month == month ==> s.sequence <= newest.sequence)
        && sequence == newest.sequence
             + if Size(newest.events) > 0 && Size(newest.events) + incoming > maxBytes then 1 else 0;
      var i :| 0 <= i < |segments| && segments[i] == s;
      var j :| 0 <= j < |segments| && segments[j] == newest;
      assert i == j;
    }
  }

  ghost predicate Has(segments: seq<Segment>, month: int, sequence: nat, event: Event) {
    exists s :: s in segments && Names(s, month, sequence) && s.events != [] && s.events[|s.events| - 1] == event
  }

  lemma {:induction false} AppendKeepsOrder(segments: seq<Segment>, month: int, sequence: nat, event: Event)
    requires Listed(segments)
    ensures Listed(Appended(segments, month, sequence, event))
    ensures forall s :: s in Appended(segments, month, sequence, event) ==>
      s in segments || Names(s, month, sequence)
  {
    if segments != [] && !Precedes(month, sequence, segments[0]) {
      var head, rest := segments[0], segments[1..];
      if !Names(head, month, sequence) {
        AppendKeepsOrder(rest, month, sequence, event);
        var tail := Appended(rest, month, sequence, event);
        forall i | 0 <= i < |tail| ensures Precedes(head.month, head.sequence, tail[i]) {
          assert tail[i] in tail;
        }
      }
    }
  }

  lemma {:induction false} AppendKeepsBounds(segments: seq<Segment>, month: int, sequence: nat, event: Event,
                                             monthOf: MonthOf, maxBytes: nat)
    requires forall s :: s in segments ==> SegmentOk(s, monthOf, maxBytes)
    requires monthOf(event.timestamp) == month && event.bytes > 0
    requires RoomIn(segments, month, sequence, event.bytes, maxBytes)
    ensures forall s :: s in Appended(segments, month, sequence, event) ==> SegmentOk(s, monthOf, maxBytes)
  {
    if segments == [] || Precedes(month, sequence, segments[0]) {
      assert Size([event]) == event.bytes;
      assert SegmentOk(Segment(month, sequence, [event]), monthOf, maxBytes);
    } else if Names(segments[0], month, sequence) {
      assert segments[0] in segments;
      SizeConcat(segments[0].events, [event]);
      assert Size([event]) == event.bytes;
      assert SegmentOk(segments[0].(events := segments[0].events + [event]), monthOf, maxBytes);
    } else {
      AppendKeepsBounds(segments[1..], month, sequence, event, monthOf, maxBytes);
    }
  }

  lemma {:induction false} AppendAddsEvent(segments: seq<Segment>, month: int, sequence: nat, event: Event)
    ensures multiset(All(Appended(segments, month, sequence, event))) == multiset(All(segments)) + multiset{event}
    ensures Has(Appended(segments, month, sequence, event), month, sequence, event)
  {
    hide All, Has, Precedes;
    if segments == [] || Precedes(month, sequence, segments[0]) {
      var fresh' := Segment(month, sequence, [event]);
      AllBehind(fresh', segments);
      HasAhead(fresh', segments, month, sequence, event);
    } else {
      var first, rest := segments[0], segments[1..];
      assert segments == [first] + rest;
      AllBehind(first, rest);
      if Names(first, month, sequence) {
        var longer := first.(events := first.events + [event]);
        AllBehind(longer, rest);
        HasAhead(longer, rest, month, sequence, event);
      } else {
        var tail := Appended(rest, month, sequence, event);
        AppendAddsEvent(rest, month, sequence, event);
        AllBehind(first, tail);
        HasBehind(first, tail, month, sequence, event);
      }
    }
  }

  lemma HasAhead(first: Segment, tail: seq<Segment>, month: int, sequence: nat, event: Event)
    requires Names(first, month, sequence) && first.events != [] && first.events[|first.events| - 1] == event
    ensures Has([first] + tail, month, sequence, event)
  {
    assert first in [first] + tail;
  }

  lemma AllBehind(first: Segment, tail: seq<Segment>)
    ensures multiset(All([first] + tail)) == multiset(first.events) + multiset(All(tail))
  {
    assert ([first] + tail)[1..] == tail;
  }

  lemma HasBehind(first: Segment, tail: seq<Segment>, month: int, sequence: nat, event: Event)
    requires Has(tail, month, sequence, event)
    ensures Has([first] + tail, month, sequence, event)
  {
    var s :| s in tail && Names(s, month, sequence) && s.events != [] && s.events[|s.events| - 1] == event;
    assert s in [first] + tail;
  }
}
