// The memory store: records kept by project scope, and one record superseding another through two
// separate writes. A save may be cut short before the first write or between the two, and a write
// that is done may still be reported as failed.
module MemoryStore {
  import opened Wrappers
  import opened Digraph
  import opened MemoryModel

  // Project id (empty for the global scope) to memory id to record.
  type Scopes = map<string, map<string, Record>>

  datatype Fault =
    | InvalidId | InvalidProject | InvalidStatus | InvalidKind | InvalidSource | GlobalNotPreference
    | InvalidSupersedes | SupersedesItself
    | InOtherScope
    | TargetInManyScopes | TargetMissing | TargetOfOtherProject | TargetAlreadySuperseded
    | WriteFailed

  // The checks Save makes before it takes its locks, in their order.
  function RequestFault(rec: Record, supersedes: string): Option<Fault> {
    if !IsMemoryId(rec.memoryId) then Some(InvalidId)
    else if !ValidProjectId(rec.projectId) then Some(InvalidProject)
    else if !ValidStatus(rec.status) then Some(InvalidStatus)
    else if !ValidKind(rec.kind) then Some(InvalidKind)
    else if !ValidSource(rec.source) then Some(InvalidSource)
    else if rec.projectId == "" && rec.kind != "preference" then Some(GlobalNotPreference)
    else if supersedes != "" && !IsMemoryId(supersedes) then Some(InvalidSupersedes)
    else if supersedes != "" && supersedes == rec.memoryId then Some(SupersedesItself)
    else None
  }

  // What readRecordRoot accepts from the file of an id in a scope.
  predicate Readable(project: string, id: string, rec: Record) {
    && rec.memoryId == id && rec.projectId == project
    && ValidStatus(rec.status) && ValidKind(rec.kind) && ValidSource(rec.source)
    && (rec.projectId == "" ==> rec.kind == "preference")
  }

  predicate Holds(scopes: Scopes, project: string, id: string) {
    project in scopes && id in scopes[project]
  }

  predicate Reads(scopes: Scopes, project: string, id: string) {
    Holds(scopes, project, id) && Readable(project, id, scopes[project][id])
  }

  ghost predicate UsedElsewhere(scopes: Scopes, project: string, id: string) {
    exists other :: other != project && Holds(scopes, other, id)
  }

  datatype Location = Nowhere | In(project: string) | Many

  ghost predicate LocatedAt(scopes: Scopes, id: string, location: Location) {
    match location
    case Nowhere => forall p :: !Reads(scopes, p, id)
    case In(project) => Reads(scopes, project, id) && forall p :: Reads(scopes, p, id) ==> p == project
    case Many => exists p, q :: p != q && Reads(scopes, p, id) && Reads(scopes, q, id)
  }

  // Where findRecordLocation finds an id.
  ghost function Locate(scopes: Scopes, id: string): (location: Location)
    ensures LocatedAt(scopes, id, location)
  {
    if exists p :: Reads(scopes, p, id) then
      var p :| Reads(scopes, p, id);
      if forall q :: Reads(scopes, q, id) ==> q == p then In(p) else Many
    else Nowhere
  }

  lemma LocatedOnce(scopes: Scopes, id: string, location: Location)
    requires LocatedAt(scopes, id, location)
    ensures location == Locate(scopes, id)
  {
  }

  function TargetFault(scopes: Scopes, rec: Record, supersedes: string, location: Location): Option<Fault>
    requires location.In? ==> Reads(scopes, location.project, supersedes)
  {
    match location
    case Many => Some(TargetInManyScopes)
    case Nowhere => Some(TargetMissing)
    case In(project) =>
      var target := scopes[project][supersedes];
      if target.projectId != rec.projectId then Some(TargetOfOtherProject)
      else if target.status == "superseded" && target.supersededBy != rec.memoryId then Some(TargetAlreadySuperseded)
      else None
  }

  function Opened(scopes: Scopes, project: string): Scopes {
    if project in scopes then scopes else scopes[project := map[]]
  }

  function Put(scopes: Scopes, rec: Record): Scopes
    requires rec.projectId in scopes
  {
    scopes[rec.projectId := scopes[rec.projectId][rec.memoryId := rec]]
  }

  function Marked(target: Record, successor: string): Record {
    target.(status := "superseded", supersededBy := successor)
  }

  // What a save does when `writes` records are renamed into place before it stops, and the directory
  // of the last of them can be synced or not: the fault it reports, if any, and the store it leaves
  // behind. A record that could not be synced is in place all the same.
  ghost predicate Saves(
    before: Scopes, rec: Record, supersedes: string, writes: nat, synced: bool, after: Scopes, fault: Option<Fault>)
  {
    if RequestFault(rec, supersedes).Some? then
      fault == RequestFault(rec, supersedes) && after == before
    else
      var opened' := Opened(before, rec.projectId);
      if UsedElsewhere(opened', rec.projectId, rec.memoryId) then
        fault == Some(InOtherScope) && after == opened'
      else if supersedes == "" then
        if writes == 0 then fault == Some(WriteFailed) && after == opened'
        else fault == Reported(synced) && after == Put(opened', rec)
      else SavesOver(opened', rec, supersedes, writes, synced, Locate(opened', supersedes), after, fault)
  }

  function Reported(synced: bool): Option<Fault> {
    if synced then None else Some(WriteFailed)
  }

  ghost predicate SavesOver(
    opened': Scopes, rec: Record, supersedes: string, writes: nat, synced: bool, location: Location, after: Scopes,
    fault: Option<Fault>)
    requires rec.projectId in opened' && LocatedAt(opened', supersedes, location)
  {
    var targetFault := TargetFault(opened', rec, supersedes, location);
    if targetFault.Some? then fault == targetFault && after == opened'
    else if writes == 0 then fault == Some(WriteFailed) && after == opened'
    else
      var written := Put(opened', rec);
      if writes == 1 then fault == Some(WriteFailed) && after == written
      else
        && fault == Reported(synced)
        && after == Put(written, Marked(opened'[location.project][supersedes], rec.memoryId))
  }

  ghost predicate Filed(scopes: Scopes) {
    && (forall p :: p in scopes ==> ValidProjectId(p))
    && (forall p, id :: Holds(scopes, p, id) ==> IsMemoryId(id) && Readable(p, id, scopes[p][id]))
  }

  ghost predicate OneScope(scopes: Scopes) {
    forall p, q, id :: Holds(scopes, p, id) && Holds(scopes, q, id) ==> p == q
  }

  // A superseded record names a stored record of its own project; an active one names none.
  ghost predicate Linked(scopes: Scopes) {
    forall p, id :: Holds(scopes, p, id) ==> LinkOk(scopes, p, id)
  }

  ghost predicate LinkOk(scopes: Scopes, p: string, id: string)
    requires Holds(scopes, p, id)
  {
    var rec := scopes[p][id];
    if rec.status == "superseded" then Holds(scopes, p, rec.supersededBy) else rec.supersededBy == ""
  }

  ghost function Links(scopes: Scopes): set<(string, string)> {
    set p, id | p in scopes && id in scopes[p] && scopes[p][id].status == "superseded"
      :: (id, scopes[p][id].supersededBy)
  }

  ghost predicate Valid(scopes: Scopes) {
    Filed(scopes) && OneScope(scopes) && Linked(scopes) && !HasCycle(Links(scopes))
  }

  // The edges that do not leave a.
  ghost function Without(edges: set<(string, string)>, a: string): set<(string, string)> {
    set e | e in edges && e.0 != a
  }

  lemma FewerEdgesFewerCycles(edges: set<(string, string)>, more: set<(string, string)>)
    requires edges <= more && !HasCycle(more)
    ensures !HasCycle(edges)
  {
    forall a ensures !OnCycle(edges, a) {
      if OnCycle(edges, a) {
        var p :| IsCycleThrough(edges, a, p);
        assert IsCycleThrough(more, a, p);
        assert OnCycle(more, a);
      }
    }
  }

  // An edge into a node that nothing leaves closes no cycle.
  lemma EdgeIntoSink(edges: set<(string, string)>, t: string, a: string)
    requires !HasCycle(edges) && t != a
    requires forall e :: e in edges ==> e.0 != a
    ensures !HasCycle(edges + {(t, a)})
  {
    var more := edges + {(t, a)};
    forall c ensures !OnCycle(more, c) {
      if OnCycle(more, c) {
        var p :| IsCycleThrough(more, c, p);
        forall i | 0 <= i < |p| - 1 ensures (p[i], p[i + 1]) in edges {
          assert (p[i], p[i + 1]) in more;
          var next := if i + 1 < |p| - 1 then i + 1 else 0;
          assert p[next] == p[i + 1] && (p[next], p[next + 1]) in more;
        }
        assert IsCycleThrough(edges, c, p);
        assert OnCycle(edges, c);
      }
    }
  }

  lemma LinksAfterPut(scopes: Scopes, rec: Record)
    requires rec.projectId in scopes && !UsedElsewhere(scopes, rec.projectId, rec.memoryId)
    ensures Links(Put(scopes, rec)) == Without(Links(scopes), rec.memoryId)
      + if rec.status == "superseded" then {(rec.memoryId, rec.supersededBy)} else {}
  {
    var after := Put(scopes, rec);
    forall e ensures e in Links(after) <==>
      (e in Links(scopes) && e.0 != rec.memoryId)
      || (rec.status == "superseded" && e == (rec.memoryId, rec.supersededBy))
    {
      if e in Links(after) {
        var p, id :| p in after && id in after[p] && after[p][id].status == "superseded"
          && e == (id, after[p][id].supersededBy);
        assert p != rec.projectId ==> Holds(scopes, p, id);
      }
      if e in Links(scopes) && e.0 != rec.memoryId {
        var p, id :| p in scopes && id in scopes[p] && scopes[p][id].status == "superseded"
          && e == (id, scopes[p][id].supersededBy);
        assert p in after && id in after[p] && after[p][id] == scopes[p][id];
      }
      if rec.status == "superseded" {
        assert rec.memoryId in after[rec.projectId];
      }
    }
  }

  lemma PutFiles(scopes: Scopes, rec: Record)
    requires Filed(scopes) && OneScope(scopes)
    requires rec.projectId in scopes && !UsedElsewhere(scopes, rec.projectId, rec.memoryId)
    requires IsMemoryId(rec.memoryId) && Readable(rec.projectId, rec.memoryId, rec)
    ensures Filed(Put(scopes, rec)) && OneScope(Put(scopes, rec))
    ensures forall p, id :: Holds(Put(scopes, rec), p, id) <==>
      Holds(scopes, p, id) || (p == rec.projectId && id == rec.memoryId)
  {
    hide IsMemoryId, ValidProjectId, Readable;
    var after := Put(scopes, rec);
    forall p, id ensures Holds(after, p, id) <==> Holds(scopes, p, id) || (p == rec.projectId && id == rec.memoryId) {
    }
    assert forall p, id :: Holds(after, p, id) && (p != rec.projectId || id != rec.memoryId) ==>
      after[p][id] == scopes[p][id];
    assert Holds(after, rec.projectId, rec.memoryId) && after[rec.projectId][rec.memoryId] == rec;
    forall p, q, id | Holds(after, p, id) && Holds(after, q, id) ensures p == q {
      assert id != rec.memoryId ==> Holds(scopes, p, id) && Holds(scopes, q, id);
    }
  }

  // Writing an active record, new or in place of an old one with its id.
  lemma PutActiveKeeps(scopes: Scopes, rec: Record)
    requires Valid(scopes)
    requires rec.projectId in scopes && !UsedElsewhere(scopes, rec.projectId, rec.memoryId)
    requires IsMemoryId(rec.memoryId) && Readable(rec.projectId, rec.memoryId, rec)
    requires rec.status == "active" && rec.supersededBy == ""
    ensures Valid(Put(scopes, rec))
  {
    var after := Put(scopes, rec);
    hide IsMemoryId, ValidProjectId, Readable;
    PutFiles(scopes, rec);
    LinksAfterPut(scopes, rec);
    FewerEdgesFewerCycles(Links(after), Links(scopes));
    assert Linked(after) by {
      hide Links, HasCycle, Filed, OneScope;
      forall p, id | Holds(after, p, id) ensures LinkOk(after, p, id) {
        if id != rec.memoryId || p != rec.projectId {
          assert LinkOk(scopes, p, id);
        }
      }
    }
  }

  // Marking a record superseded by an active record of its project.
  lemma MarkKeeps(scopes: Scopes, project: string, old': string, new': string)
    requires Valid(scopes)
    requires Holds(scopes, project, old') && Holds(scopes, project, new') && old' != new'
    requires scopes[project][new'].status == "active"
    ensures scopes[project][old'].projectId == project && Valid(Put(scopes, Marked(scopes[project][old'], new')))
  {
    var rec := Marked(scopes[project][old'], new');
    var after := Put(scopes, rec);
    assert Readable(project, old', scopes[project][old']) && Readable(project, old', rec);
    hide IsMemoryId, ValidProjectId, Readable;
    PutFiles(scopes, rec);
    LinksAfterPut(scopes, rec);
    var kept := Without(Links(scopes), old');
    FewerEdgesFewerCycles(kept, Links(scopes));
    forall e | e in kept ensures e.0 != new' {
      var p, id :| p in scopes && id in scopes[p] && scopes[p][id].status == "superseded"
        && e == (id, scopes[p][id].supersededBy);
      assert Holds(scopes, p, id);
    }
    EdgeIntoSink(kept, old', new');
    assert Linked(after) by {
      hide Links, HasCycle, Filed, OneScope;
      forall p, id | Holds(after, p, id) ensures LinkOk(after, p, id) {
        if id != old' || p != project {
          assert LinkOk(scopes, p, id);
        }
      }
    }
  }

  lemma OpenKeeps(scopes: Scopes, project: string)
    requires Valid(scopes) && ValidProjectId(project)
    ensures Valid(Opened(scopes, project)) && Links(Opened(scopes, project)) == Links(scopes)
    ensures forall p, id :: Holds(Opened(scopes, project), p, id) <==> Holds(scopes, p, id)
  {
    var after := Opened(scopes, project);
    hide IsMemoryId, ValidProjectId, Readable;
    forall p, id ensures Holds(after, p, id) <==> Holds(scopes, p, id) {
    }
    forall e ensures e in Links(after) <==> e in Links(scopes) {
      if e in Links(after) {
        var p, id :| p in after && id in after[p] && after[p][id].status == "superseded"
          && e == (id, after[p][id].supersededBy);
        assert Holds(scopes, p, id);
      }
      if e in Links(scopes) {
        var p, id :| p in scopes && id in scopes[p] && scopes[p][id].status == "superseded"
          && e == (id, scopes[p][id].supersededBy);
        assert Holds(after, p, id);
      }
    }
    assert Links(after) == Links(scopes);
    assert Linked(after) by {
      forall p, id | Holds(after, p, id) ensures LinkOk(after, p, id) {
        assert LinkOk(scopes, p, id);
      }
    }
  }

  // The save handler and promotion only ever save active records that supersede nothing yet.
  predicate Fresh(rec: Record) {
    rec.status == "active" && rec.supersededBy == ""
  }

  // Every save of such a record keeps the store valid, wherever it is cut short.
  lemma SaveKeeps(
    before: Scopes, rec: Record, supersedes: string, writes: nat, synced: bool, after: Scopes, fault: Option<Fault>)
    requires Valid(before) && Fresh(rec)
    requires Saves(before, rec, supersedes, writes, synced, after, fault)
    ensures Valid(after)
  {
    if RequestFault(rec, supersedes) == None {
      OpenKeeps(before, rec.projectId);
      var opened' := Opened(before, rec.projectId);
      hide IsMemoryId, ValidProjectId, Valid;
      if !UsedElsewhere(opened', rec.projectId, rec.memoryId) {
        PutActiveKeeps(opened', rec);
        if supersedes != "" {
          var location := Locate(opened', supersedes);
          if TargetFault(opened', rec, supersedes, location) == None {
            MarkKeeps(Put(opened', rec), rec.projectId, supersedes, rec.memoryId);
          }
        }
      }
    }
  }

  datatype Attempt = Attempt(rec: Record, supersedes: string, writes: nat, synced: bool, fault: Option<Fault>)

  // The store over any sequence of saves, each complete or cut short, from an empty store.
  ghost predicate IsHistory(states: seq<Scopes>, attempts: seq<Attempt>) {
    && |states| == |attempts| + 1 && states[0] == map[]
    && forall i :: 0 <= i < |attempts| ==> Steps(states, attempts, i)
  }

  ghost predicate Steps(states: seq<Scopes>, attempts: seq<Attempt>, i: nat)
    requires i < |attempts| && i + 1 < |states|
  {
    var a := attempts[i];
    Fresh(a.rec) && Saves(states[i], a.rec, a.supersedes, a.writes, a.synced, states[i + 1], a.fault)
  }

  lemma EmptyIsValid()
    ensures Valid(map[])
  {
    var edges := Links(map[]);
    forall a, p ensures !IsCycleThrough(edges, a, p) {
      assert |p| >= 2 ==> (p[0], p[0 + 1]) !in edges;
    }
  }

  lemma {:induction false} HistoryIsValid(states: seq<Scopes>, attempts: seq<Attempt>, n: nat)
    requires IsHistory(states, attempts) && n < |states|
    ensures Valid(states[n])
  {
    hide Valid, Saves;
    if n == 0 {
      EmptyIsValid();
    } else {
      HistoryIsValid(states, attempts, n - 1);
      assert Steps(states, attempts, n - 1);
      var a := attempts[n - 1];
      SaveKeeps(states[n - 1], a.rec, a.supersedes, a.writes, a.synced, states[n], a.fault);
    }
  }

  ghost function Ids(scopes: Scopes, project: string): set<string>
    requires project in scopes
  {
    scopes[project].Keys
  }

  lemma LinkStaysInside(scopes: Scopes, project: string, a: string, b: string)
    requires Valid(scopes) && Holds(scopes, project, a) && (a, b) in Links(scopes)
    ensures Holds(scopes, project, b) && scopes[project][a].status == "superseded"
  {
    var p, id :| p in scopes && id in scopes[p] && scopes[p][id].status == "superseded"
      && (a, b) == (id, scopes[p][id].supersededBy);
    assert Holds(scopes, p, a);
    assert LinkOk(scopes, p, a);
  }

  ghost predicate EndsAt(scopes: Scopes, project: string, id: string, end: string) {
    Holds(scopes, project, end) && scopes[project][end].status == "active" && Reaches(Links(scopes), id, end)
  }

  // Following supersededBy from a path already walked.
  lemma {:induction false} FollowToEnd(scopes: Scopes, project: string, path: seq<string>) returns (end: string)
    requires Valid(scopes) && IsPath(Links(scopes), path)
    requires forall i :: 0 <= i < |path| ==> Holds(scopes, project, path[i])
    ensures EndsAt(scopes, project, path[0], end)
    decreases if project in scopes then |Ids(scopes, project)| + 1 - |path| else 0
  {
    assert Holds(scopes, project, path[0]);
    var links, last := Links(scopes), path[|path| - 1];
    if scopes[project][last].status == "superseded" {
      var next := scopes[project][last].supersededBy;
      assert (last, next) in links;
      LinkStaysInside(scopes, project, last, next);
      hide Links, Filed, Linked, OneScope;
      AcyclicPathFits(Ids(scopes, project), links, path + [next]);
      end := FollowToEnd(scopes, project, path + [next]);
    } else {
      assert Readable(project, last, scopes[project][last]);
      end := last;
    }
  }

  // Nothing superseded is lost: from every stored record the supersededBy references lead to an
  // active record of the same project.
  lemma ChainEndsActive(scopes: Scopes, project: string, id: string) returns (end: string)
    requires Valid(scopes) && Holds(scopes, project, id)
    ensures EndsAt(scopes, project, id, end)
  {
    end := FollowToEnd(scopes, project, [id]);
  }

  // A save that failed in writing, wherever it stopped, can be repeated, with a later time stamp, say:
  // the repeat succeeds and leaves what it would have left had the first save never been tried.
  lemma RepeatCompletes(
    before: Scopes, rec: Record, again: Record, supersedes: string, writes: nat, synced: bool, mid: Scopes)
    requires Valid(before) && Fresh(rec) && Fresh(again)
    requires again.memoryId == rec.memoryId && again.projectId == rec.projectId
    requires RequestFault(rec, supersedes) == None && RequestFault(again, supersedes) == None
    requires Saves(before, rec, supersedes, writes, synced, mid, Some(WriteFailed))
    ensures exists after ::
      && Saves(mid, again, supersedes, 2, true, after, None)
      && Saves(before, again, supersedes, 2, true, after, None)
  {
    var opened' := Opened(before, rec.projectId);
    OpenKeeps(before, rec.projectId);
    hide IsMemoryId, ValidProjectId, Valid;
    assert !UsedElsewhere(opened', rec.projectId, rec.memoryId);
    if supersedes == "" {
      RepeatAlone(opened', rec, again, mid);
      var after := Put(opened', again);
      assert Saves(mid, again, "", 2, true, after, None) && Saves(before, again, "", 2, true, after, None);
    } else {
      var location := Locate(opened', supersedes);
      assert TargetFault(opened', rec, supersedes, location) == None;
      var target := opened'[location.project][supersedes];
      var after := Put(Put(opened', again), Marked(target, rec.memoryId));
      RepeatOver(opened', rec, again, supersedes, location, mid);
      hide TargetFault;
      assert Saves(mid, again, supersedes, 2, true, after, None);
      assert Saves(before, again, supersedes, 2, true, after, None);
    }
  }

  lemma RepeatAlone(opened': Scopes, rec: Record, again: Record, mid: Scopes)
    requires rec.projectId in opened' && again.memoryId == rec.memoryId && again.projectId == rec.projectId
    requires !UsedElsewhere(opened', rec.projectId, rec.memoryId)
    requires mid == opened' || mid == Put(opened', rec)
    ensures rec.projectId in mid && Opened(mid, rec.projectId) == mid
    ensures !UsedElsewhere(mid, rec.projectId, rec.memoryId) && Put(mid, again) == Put(opened', again)
  {
    var project, id := rec.projectId, rec.memoryId;
    forall p | p != project ensures Holds(mid, p, id) <==> Holds(opened', p, id) {
    }
    assert mid[project][id := again] == opened'[project][id := again];
  }

  // Whether neither, one or both of its records are in place, the target is found again and can be
  // superseded by the same successor.
  lemma RepeatOver(
    opened': Scopes, rec: Record, again: Record, supersedes: string, location: Location, mid: Scopes)
    requires rec.projectId in opened' && again.memoryId == rec.memoryId && again.projectId == rec.projectId
    requires !UsedElsewhere(opened', rec.projectId, rec.memoryId) && supersedes != rec.memoryId
    requires location == Locate(opened', supersedes) && TargetFault(opened', rec, supersedes, location) == None
    requires var target := opened'[location.project][supersedes];
      mid == opened' || mid == Put(opened', rec) || mid == Put(Put(opened', rec), Marked(target, rec.memoryId))
    ensures rec.projectId in mid && Opened(mid, rec.projectId) == mid
    ensures !UsedElsewhere(mid, rec.projectId, rec.memoryId)
    ensures Locate(mid, supersedes) == location && TargetFault(mid, again, supersedes, location) == None
    ensures Reads(mid, location.project, supersedes)
    ensures var target := opened'[location.project][supersedes];
      Put(Put(mid, again), Marked(mid[location.project][supersedes], rec.memoryId))
      == Put(Put(opened', again), Marked(target, rec.memoryId))
  {
    var project, id := rec.projectId, rec.memoryId;
    var target := opened'[location.project][supersedes];
    assert location.project == project && target.projectId == project && target.memoryId == supersedes;
    hide IsMemoryId, ValidProjectId;
    forall p ensures p != project && p in opened' ==> p in mid && mid[p] == opened'[p] {
    }
    forall p | p != project ensures Holds(mid, p, id) <==> Holds(opened', p, id) {
    }
    forall p ensures Reads(mid, p, supersedes) <==> Reads(opened', p, supersedes) {
    }
    LocatedOnce(mid, supersedes, location);
    var marked := Marked(target, id);
    assert mid[project][supersedes] == target || mid[project][supersedes] == marked;
    assert Marked(mid[project][supersedes], id) == marked;
    assert mid[project][id := again][supersedes := marked] == opened'[project][id := again][supersedes := marked];
  }
}
