// SyncAgentsFile: choose the conventions to print, print them, and replace the managed region.
module AgentsFile {
  import opened Wrappers
  import opened Ordering
  import opened StableSorting
  import opened Text
  import opened MemoryModel
  import BridgeRegion
  import BridgeRender
  import Bridge

  // The two digests and the secret patterns are parameters.
  datatype Env = Env(digest: string -> string, source: seq<Record> -> string, secret: string -> bool)

  ghost predicate HexEnv(env: Env) {
    && BridgeRegion.HexDigest(env.digest)
    && forall records :: LowerHex(env.source(records))
  }

  datatype Fault =
    | InvalidIdentity(id: string)
    | SecretContent
    | DuplicateId(id: string)
    | Region(fault: Bridge.Fault)
    | WriteFailed

  predicate IsConvention(record: Record) {
    record.kind == "convention" && record.status == "active"
  }

  predicate IdentityOk(record: Record) {
    IsMemoryId(record.memoryId) && ValidProjectId(record.projectId) && record.projectId != "" && ValidSource(record.source)
  }

  predicate ContentOk(record: Record, secret: string -> bool) {
    TrimSpace(record.title) != "" && !secret(record.title) && !secret(record.body)
  }

  function TrimmedOnce(evidence: seq<string>): seq<string> {
    if evidence == [] then []
    else
      var rest, item := TrimmedOnce(evidence[1..]), TrimSpace(evidence[0]);
      if item in rest then rest else [item] + rest
  }

  // Trimmed, without repeats, sorted.
  function NormalEvidence(evidence: seq<string>): seq<string> {
    SortStrings(TrimmedOnce(evidence))
  }

  function Normal(record: Record): Record {
    record.(title := TrimSpace(record.title), body := TrimSpace(record.body),
            evidence := NormalEvidence(record.evidence))
  }

  ghost predicate Repeats(records: seq<Record>, i: nat)
    requires i < |records|
  {
    exists j :: 0 <= j < i && IsConvention(records[j]) && records[j].memoryId == records[i].memoryId
  }

  // What is wrong with the i-th record, if anything.
  ghost function FaultAt(records: seq<Record>, i: nat, secret: string -> bool): Option<Fault>
    requires i < |records|
  {
    var record := records[i];
    if !IsConvention(record) then None
    else if !IdentityOk(record) then Some(InvalidIdentity(record.memoryId))
    else if !ContentOk(record, secret) then Some(SecretContent)
    else if Repeats(records, i) then Some(DuplicateId(record.memoryId))
    else None
  }

  ghost predicate FaultlessUpTo(records: seq<Record>, n: nat, secret: string -> bool)
    requires n <= |records|
  {
    forall i :: 0 <= i < n ==> FaultAt(records, i, secret) == None
  }

  ghost predicate Faultless(records: seq<Record>, secret: string -> bool) {
    FaultlessUpTo(records, |records|, secret)
  }

  ghost predicate FirstFault(records: seq<Record>, fault: Fault, secret: string -> bool) {
    exists i :: 0 <= i < |records| && FaultAt(records, i, secret) == Some(fault) && FaultlessUpTo(records, i, secret)
  }

  function Ids(records: seq<Record>): seq<string> {
    seq(|records|, i requires 0 <= i < |records| => records[i].memoryId)
  }

  ghost function Chosen(records: seq<Record>): set<Record> {
    set record | record in records && IsConvention(record) :: Normal(record)
  }

  // The conventions among the records, normalised, once each, by ascending id.
  ghost predicate PrintOrder(conventions: seq<Record>, records: seq<Record>) {
    StrictlySorted(Ids(conventions)) && Elements(conventions) == Chosen(records)
  }

  // There is only one such list, and it does not depend on the order the records come in.
  lemma PrintOrderUnique(a: seq<Record>, b: seq<Record>, records: seq<Record>, shuffled: seq<Record>)
    requires PrintOrder(a, records) && PrintOrder(b, shuffled)
    requires Elements(records) == Elements(shuffled)
    ensures a == b
  {
    assert Elements(a) == Elements(b) by {
      ChosenByElements(records, shuffled);
    }
    SameMembersSameIds(a, b);
    SameMembersSameIds(b, a);
    SortedUnique(Ids(a), Ids(b));
    assert |Ids(a)| == |Ids(b)|;
    forall i | 0 <= i < |a| ensures a[i] == b[i] {
      assert a[i] in Elements(a);
      var j :| 0 <= j < |b| && b[j] == a[i];
      assert Ids(b)[j] == Ids(a)[i] == Ids(b)[i];
      if j < i {
        LessAsymmetric(Ids(b)[j], Ids(b)[i]);
      } else if i < j {
        LessAsymmetric(Ids(b)[i], Ids(b)[j]);
      }
    }
  }

  lemma ChosenByElements(records: seq<Record>, shuffled: seq<Record>)
    requires Elements(records) == Elements(shuffled)
    ensures Chosen(records) == Chosen(shuffled)
  {
    forall record ensures record in records <==> record in shuffled {
      assert record in Elements(records) <==> record in Elements(shuffled);
    }
  }

  lemma SameMembersSameIds(a: seq<Record>, b: seq<Record>)
    requires Elements(a) == Elements(b)
    ensures Elements(Ids(a)) == Elements(Ids(b))
  {
    forall id ensures id in Ids(a) <==> id in Ids(b) {
      IdsHave(a, b, id);
      IdsHave(b, a, id);
    }
  }

  lemma IdsHave(a: seq<Record>, b: seq<Record>, id: string)
    requires Elements(a) == Elements(b)
    ensures id in Ids(a) ==> id in Ids(b)
  {
    if id in Ids(a) {
      var i :| 0 <= i < |a| && Ids(a)[i] == id;
      assert a[i] in Elements(b);
      var j :| 0 <= j < |b| && b[j] == a[i];
      assert Ids(b)[j] == id;
    }
  }

  predicate ById(a: Record, b: Record) {
    Less(a.memoryId, b.memoryId)
  }

  lemma ByIdIsStrictWeak()
    ensures StrictWeak(ById)
  {
    LessIsStrictWeak();
    hide Less;
    assert forall a, b :: ById(a, b) <==> Less(a.memoryId, b.memoryId);
  }

  lemma SortByIdMeans(records: seq<Record>)
    requires Distinct(Ids(records))
    ensures StrictlySorted(Ids(Sort(records, ById)))
    ensures Elements(Sort(records, ById)) == Elements(records)
  {
    ByIdIsStrictWeak();
    hide StrictWeak;
    forall i, j | 0 <= i < j < |records| ensures ById(records[i], records[j]) || ById(records[j], records[i]) {
      assert Ids(records)[i] != Ids(records)[j];
      LessTotal(records[i].memoryId, records[j].memoryId);
    }
    SortStrictly(records, ById);
    hide Sort;
    forall i, j | 0 <= i < j < |Ids(Sort(records, ById))|
      ensures Less(Ids(Sort(records, ById))[i], Ids(Sort(records, ById))[j]) {
      assert ById(Sort(records, ById)[i], Sort(records, ById)[j]);
    }
  }

  // What the loop has gathered from the first n records.
  ghost predicate Gathered(records: seq<Record>, n: nat, found: seq<Record>, seen: set<string>, secret: string -> bool)
    requires n <= |records|
  {
    && FaultlessUpTo(records, n, secret)
    && Elements(found) == Chosen(records[..n])
    && Distinct(Ids(found))
    && SeenAre(records, n, found, seen)
  }

  // seen holds the ids of the conventions so far, those of the gathered ones among them.
  ghost predicate SeenAre(records: seq<Record>, n: nat, found: seq<Record>, seen: set<string>)
    requires n <= |records|
  {
    && (forall i :: 0 <= i < |found| ==> found[i].memoryId in seen)
    && (forall id :: id in seen <==> Names(records, n, id))
  }

  ghost predicate Names(records: seq<Record>, n: nat, id: string)
    requires n <= |records|
  {
    exists j :: 0 <= j < n && IsConvention(records[j]) && records[j].memoryId == id
  }

  lemma ChosenNext(records: seq<Record>, n: nat)
    requires n < |records|
    ensures Chosen(records[..n + 1])
         == Chosen(records[..n]) + if IsConvention(records[n]) then {Normal(records[n])} else {}
  {
    assert records[..n + 1] == records[..n] + [records[n]];
  }

  lemma DistinctNext(found: seq<Record>, record: Record)
    requires Distinct(Ids(found))
    requires forall i :: 0 <= i < |found| ==> found[i].memoryId != record.memoryId
    ensures Distinct(Ids(found + [record]))
  {
    assert Ids(found + [record]) == Ids(found) + [record.memoryId];
  }

  lemma SeenMeans(records: seq<Record>, n: nat, found: seq<Record>, seen: set<string>, secret: string -> bool)
    requires n < |records| && Gathered(records, n, found, seen, secret)
    ensures records[n].memoryId in seen <==> Repeats(records, n)
    ensures FaultlessUpTo(records, n, secret)
  {
    hide FaultlessUpTo, Chosen;
  }

  lemma Skips(records: seq<Record>, n: nat, found: seq<Record>, seen: set<string>, secret: string -> bool)
    requires n < |records| && Gathered(records, n, found, seen, secret)
    requires !IsConvention(records[n])
    ensures Gathered(records, n + 1, found, seen, secret)
  {
    ChosenNext(records, n);
    hide Chosen, IsConvention, Normal, Elements;
  }

  lemma NameNext(records: seq<Record>, n: nat, id: string)
    requires n < |records| && IsConvention(records[n])
    ensures Names(records, n + 1, id) <==> Names(records, n, id) || id == records[n].memoryId
  {
    if Names(records, n, id) {
      var j :| 0 <= j < n && IsConvention(records[j]) && records[j].memoryId == id;
      assert 0 <= j < n + 1;
    }
  }

  lemma FoundNext(found: seq<Record>, chosen: set<Record>, added: Record)
    requires Elements(found) == chosen && Distinct(Ids(found))
    requires forall i :: 0 <= i < |found| ==> found[i].memoryId != added.memoryId
    ensures Elements(found + [added]) == chosen + {added}
    ensures Distinct(Ids(found + [added]))
  {
    DistinctNext(found, added);
    ElementsConcat(found, [added]);
    ElementsSingle(added);
  }

  lemma Adds(records: seq<Record>, n: nat, found: seq<Record>, seen: set<string>, secret: string -> bool)
    requires n < |records| && Gathered(records, n, found, seen, secret)
    requires IsConvention(records[n]) && FaultAt(records, n, secret) == None
    ensures Gathered(records, n + 1, found + [Normal(records[n])], seen + {records[n].memoryId}, secret)
  {
    var added := Normal(records[n]);
    SeenMeans(records, n, found, seen, secret);
    assert Elements(found + [added]) == Chosen(records[..n + 1]) && Distinct(Ids(found + [added])) by {
      ChosenNext(records, n);
      hide FaultAt, FaultlessUpTo, Normal, Chosen, Elements;
      FoundNext(found, Chosen(records[..n]), added);
    }
    SeenNext(records, n, found, seen, added);
    assert FaultlessUpTo(records, n + 1, secret) by {
      hide *;
      FaultlessNext(records, n, secret);
    }
    hide FaultAt, FaultlessUpTo, Normal, SeenAre, Elements, Chosen, Distinct, Ids;
  }

  lemma FaultlessNext(records: seq<Record>, n: nat, secret: string -> bool)
    requires n < |records| && FaultlessUpTo(records, n, secret) && FaultAt(records, n, secret) == None
    ensures FaultlessUpTo(records, n + 1, secret)
  {
    hide FaultAt;
  }

  lemma SeenNext(records: seq<Record>, n: nat, found: seq<Record>, seen: set<string>, added: Record)
    requires n < |records| && IsConvention(records[n]) && SeenAre(records, n, found, seen)
    requires added.memoryId == records[n].memoryId
    ensures SeenAre(records, n + 1, found + [added], seen + {records[n].memoryId})
  {
    hide IsConvention, Names;
    forall id ensures id in seen + {records[n].memoryId} <==> Names(records, n + 1, id) {
      NameNext(records, n, id);
    }
  }

  lemma FaultStops(records: seq<Record>, n: nat, fault: Fault, secret: string -> bool)
    requires n < |records| && FaultlessUpTo(records, n, secret) && FaultAt(records, n, secret) == Some(fault)
    ensures !Faultless(records, secret) && FirstFault(records, fault, secret)
  {
    hide FaultAt;
  }

  method ActiveConventions(records: seq<Record>, secret: string -> bool) returns (r: Result<seq<Record>, Fault>)
    ensures r.Ok? <==> Faultless(records, secret)
    ensures r.Ok? ==> PrintOrder(r.value, records)
    ensures r.Err? ==> FirstFault(records, r.error, secret)
  {
    var found: seq<Record> := [];
    var seen: set<string> := {};
    for i := 0 to |records|
      invariant Gathered(records, i, found, seen, secret)
    {
      var record := records[i];
      SeenMeans(records, i, found, seen, secret);
      hide TrimSpace, NormalEvidence, IsMemoryId, ValidProjectId, Gathered;
      if IsConvention(record) {
        if !IdentityOk(record) {
          FaultStops(records, i, InvalidIdentity(record.memoryId), secret);
          return Err(InvalidIdentity(record.memoryId));
        }
        if !ContentOk(record, secret) {
          FaultStops(records, i, SecretContent, secret);
          return Err(SecretContent);
        }
        if record.memoryId in seen {
          FaultStops(records, i, DuplicateId(record.memoryId), secret);
          return Err(DuplicateId(record.memoryId));
        }
        Adds(records, i, found, seen, secret);
        seen := seen + {record.memoryId};
        found := found + [Normal(record)];
      } else {
        Skips(records, i, found, seen, secret);
      }
    }
    assert records[..|records|] == records;
    SortByIdMeans(found);
    r := Ok(Sort(found, ById));
  }

  datatype SyncResult = SyncResult(status: Bridge.Status, sourceHash: string, recordCount: nat, changed: bool)

  function Rendered(conventions: seq<Record>, env: Env): string {
    BridgeRender.Printed(BridgeRender.Body(conventions, env.source(conventions)), env.digest)
  }

  lemma ConventionIds(conventions: seq<Record>, records: seq<Record>, secret: string -> bool)
    requires Faultless(records, secret) && PrintOrder(conventions, records)
    ensures forall record :: record in conventions ==> IsMemoryId(record.memoryId)
  {
    hide IsMemoryId, TrimSpace, NormalEvidence, ContentOk;
    forall record | record in conventions ensures IsMemoryId(record.memoryId) {
      assert record in Elements(conventions);
      var raw :| raw in records && IsConvention(raw) && Normal(raw) == record;
      var i :| 0 <= i < |records| && records[i] == raw;
      assert FaultAt(records, i, secret) == None;
    }
  }

  // Any accepted records print a region that any surrounding text can hold.
  lemma RegionIsGood(conventions: seq<Record>, records: seq<Record>, env: Env)
    requires HexEnv(env) && Faultless(records, env.secret) && PrintOrder(conventions, records)
    ensures BridgeRender.GoodBody(BridgeRender.Body(conventions, env.source(conventions)))
  {
    ConventionIds(conventions, records, env.secret);
    assert LowerHex(env.source(conventions));
    BridgeRender.BodyIsGood(conventions, env.source(conventions));
  }

  // What a sync that printed these conventions did to the file and reported.
  ghost predicate SyncedTo(was: Option<string>, now: Option<string>, printed: seq<Record>, env: Env, writable: bool,
                           r: Result<SyncResult, Fault>)
  {
    var hash := "sha256:" + env.source(printed);
    match Bridge.Synced(was, Rendered(printed, env), env.digest)
    case Err(fault) => r == Err(Region(fault)) && now == was
    case Ok(next) =>
      if was == Some(next) then r == Ok(SyncResult(Bridge.Unchanged, hash, |printed|, false)) && now == was
      else if !writable then r == Err(WriteFailed) && now == was
      else
        var status := Bridge.FrameOf(was, env.digest).value.status;
        r == Ok(SyncResult(status, hash, |printed|, true)) && now == Some(next)
  }

  // A second sync with the same records, in whatever order, reports Unchanged and writes nothing.
  lemma SecondSyncIsQuiet(was: Option<string>, now: Option<string>, after: Option<string>, env: Env,
                          records: seq<Record>, shuffled: seq<Record>,
                          printed: seq<Record>, again: seq<Record>,
                          r: Result<SyncResult, Fault>, s: Result<SyncResult, Fault>, writable: bool)
    requires HexEnv(env) && Elements(records) == Elements(shuffled)
    requires Faultless(records, env.secret)
    requires PrintOrder(printed, records) && PrintOrder(again, shuffled)
    requires SyncedTo(was, now, printed, env, true, r) && r.Ok?
    requires SyncedTo(now, after, again, env, writable, s)
    ensures after == now && s.Ok? && s.value.status == Bridge.Unchanged && s.value.sourceHash == r.value.sourceHash
  {
    PrintOrderUnique(printed, again, records, shuffled);
    RegionIsGood(printed, records, env);
    var body := BridgeRender.Body(printed, env.source(printed));
    hide Bridge.Synced, Bridge.FrameOf, BridgeRender.Body, BridgeRender.Printed, BridgeRender.GoodBody, Faultless, PrintOrder;
    Bridge.LastSyncWins(was, body, body, env.digest);
  }

  // Printing other conventions later gives the file that printing only them would have given.
  lemma OnlyTheLastSyncShows(was: Option<string>, now: Option<string>, env: Env,
                             records: seq<Record>, others: seq<Record>,
                             printed: seq<Record>, later: seq<Record>, r: Result<SyncResult, Fault>)
    requires HexEnv(env) && Faultless(records, env.secret) && Faultless(others, env.secret)
    requires PrintOrder(printed, records) && PrintOrder(later, others)
    requires SyncedTo(was, now, printed, env, true, r) && r.Ok?
    ensures Bridge.Synced(now, Rendered(later, env), env.digest) == Bridge.Synced(was, Rendered(later, env), env.digest)
  {
    RegionIsGood(printed, records, env);
    RegionIsGood(later, others, env);
    hide Bridge.Synced, Bridge.FrameOf, BridgeRender.Body, BridgeRender.Printed, BridgeRender.GoodBody, Faultless, PrintOrder;
    Bridge.LastSyncWins(
      was, BridgeRender.Body(printed, env.source(printed)), BridgeRender.Body(later, env.source(later)), env.digest);
  }

  class File {
    var content: Option<string>

    constructor (content: Option<string>)
      ensures this.content == content
    {
      this.content := content;
    }

    // writable says whether the replacement of the file would succeed.
    method Sync(records: seq<Record>, env: Env, writable: bool)
        returns (r: Result<SyncResult, Fault>, ghost printed: seq<Record>)
      requires HexEnv(env)
      modifies this
      ensures r.Err? ==> content == old(content)
      ensures !Faultless(records, env.secret) ==> r.Err? && FirstFault(records, r.error, env.secret)
      ensures Faultless(records, env.secret) ==>
        PrintOrder(printed, records) && SyncedTo(old(content), content, printed, env, writable, r)
    {
      printed := [];
      var conventions := ActiveConventions(records, env.secret);
      if conventions.Err? {
        return Err(conventions.error), [];
      }
      printed := conventions.value;
      var region := Rendered(conventions.value, env);
      var count := |conventions.value|;
      assert region == "" + region + "";
      var next, status := region, Bridge.Created;
      if content.Some? {
        var frame := Bridge.FrameOf(content, env.digest);
        if frame.Err? {
          return Err(Region(frame.error)), printed;
        }
        next, status := frame.value.before + region + frame.value.after, frame.value.status;
      }
      if content == Some(next) {
        return Ok(SyncResult(Bridge.Unchanged, "sha256:" + env.source(conventions.value), count, false)), printed;
      }
      if !writable {
        return Err(WriteFailed), printed;
      }
      content := Some(next);
      r := Ok(SyncResult(status, "sha256:" + env.source(conventions.value), count, true));
    }
  }
}
