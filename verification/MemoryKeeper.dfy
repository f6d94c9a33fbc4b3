// The store as an object, the save handler and the promotion of a derived memory to a convention.
module MemoryKeeper {
  import opened Wrappers
  import opened Text
  import opened MemoryModel
  import opened MemoryStore

  datatype Input = Input(
    projectId: string, kind: string, title: string, body: string, evidence: seq<string>, source: string,
    supersedes: string)

  // memoryID of project, kind and title; the hash is a parameter.
  type IdOf = (string, string, string) -> string

  ghost function Got(scopes: Scopes, id: string): Option<Record> {
    if !IsMemoryId(id) then None
    else
      var location := Locate(scopes, id);
      if location.In? then Some(scopes[location.project][id]) else None
  }

  function Normalized(input: Input): Input {
    Input(TrimSpace(input.projectId), TrimSpace(input.kind), TrimSpace(input.title), TrimSpace(input.body),
          input.evidence, TrimSpace(input.source), TrimSpace(input.supersedes))
  }

  function RecordOf(input: Input, now: string, idOf: IdOf, existing: Option<Record>): Record {
    Record(idOf(input.projectId, input.kind, input.title), input.projectId, input.kind, input.title, input.body,
           input.evidence, input.source, "active", "",
           if existing.Some? then existing.value.createdAt else now, now)
  }

  datatype PromotionFault =
    | EvalNotPassed | NoTimestamp | SourceMissing | NotDerived | NotActive | AlreadyConvention | GlobalSource
    | SuccessorExists
    | SaveFailed(fault: Fault)

  function Successor(source: Record, now: string, idOf: IdOf): Record {
    source.(memoryId := idOf(source.projectId, "convention", source.title), kind := "convention",
            status := "active", supersededBy := "", createdAt := now, updatedAt := now)
  }

  // Why a promotion is refused before it saves anything; now is empty for the zero time.
  ghost function Refusal(scopes: Scopes, id: string, passed: bool, now: string, idOf: IdOf): Option<PromotionFault> {
    if !passed then Some(EvalNotPassed)
    else if now == "" then Some(NoTimestamp)
    else
      match Got(scopes, id)
      case None => Some(SourceMissing)
      case Some(source) =>
        if source.source != "derived" then Some(NotDerived)
        else if source.status != "active" then Some(NotActive)
        else if source.kind == "convention" then Some(AlreadyConvention)
        else if source.projectId == "" then Some(GlobalSource)
        else
          var existing := Got(scopes, Successor(source, now, idOf).memoryId);
          if existing.Some? && existing.value.memoryId != source.memoryId then Some(SuccessorExists) else None
  }

  class Store {
    var scopes: Scopes

    constructor ()
      ensures scopes == map[] && Valid(scopes)
    {
      scopes := map[];
      EmptyIsValid();
    }

    method FindRecordLocation(id: string) returns (location: Location)
      ensures location == Locate(scopes, id)
    {
      location := Nowhere;
      var todo := scopes.Keys;
      while todo != {}
        invariant todo <= scopes.Keys
        invariant match location
          case Nowhere => forall p :: Reads(scopes, p, id) ==> p in todo
          case In(found) => found !in todo && Reads(scopes, found, id)
            && forall p :: Reads(scopes, p, id) ==> p == found || p in todo
          case Many => false
        decreases |todo|
      {
        var p :| p in todo;
        todo := todo - {p};
        if Reads(scopes, p, id) {
          if location.In? {
            LocatedOnce(scopes, id, Many);
            return Many;
          }
          location := In(p);
        }
      }
      LocatedOnce(scopes, id, location);
    }

    method MemoryIdUsedByOtherScope(project: string, id: string) returns (used: bool)
      ensures used <==> UsedElsewhere(scopes, project, id)
    {
      var todo := scopes.Keys;
      while todo != {}
        invariant todo <= scopes.Keys
        invariant forall p :: p != project && Holds(scopes, p, id) ==> p in todo
        decreases |todo|
      {
        var p :| p in todo;
        todo := todo - {p};
        if p != project && id in scopes[p] {
          assert Holds(scopes, p, id);
          return true;
        }
      }
      used := false;
    }

    method Get(id: string) returns (r: Option<Record>)
      ensures r == Got(scopes, id)
    {
      if !IsMemoryId(id) {
        return None;
      }
      var location := FindRecordLocation(id);
      match location
      case In(project) => r := Some(scopes[project][id]);
      case Nowhere => r := None;
      case Many => r := None;
    }

    // writes is the number of records in place when the process dies or the disk fails, synced
    // whether the directory of the last one could be synced.
    method Save(rec: Record, supersedes: string, writes: nat, synced: bool) returns (fault: Option<Fault>)
      modifies this
      ensures Saves(old(scopes), rec, supersedes, writes, synced, scopes, fault)
      ensures Fresh(rec) && Valid(old(scopes)) ==> Valid(scopes)
    {
      ghost var before := scopes;
      fault := Write(rec, supersedes, writes, synced);
      if Fresh(rec) && Valid(before) {
        SaveKeeps(before, rec, supersedes, writes, synced, scopes, fault);
      }
    }

    method Write(rec: Record, supersedes: string, writes: nat, synced: bool) returns (fault: Option<Fault>)
      modifies this
      ensures Saves(old(scopes), rec, supersedes, writes, synced, scopes, fault)
    {
      hide IsMemoryId, ValidProjectId, ValidKind, ValidStatus, ValidSource;
      fault := RequestFault(rec, supersedes);
      if fault.Some? {
        return;
      }
      scopes := Opened(scopes, rec.projectId);
      var used := MemoryIdUsedByOtherScope(rec.projectId, rec.memoryId);
      if used {
        return Some(InOtherScope);
      }
      if supersedes != "" {
        var location := FindRecordLocation(supersedes);
        fault := TargetFault(scopes, rec, supersedes, location);
        if fault.Some? {
          return;
        }
        var target := scopes[location.project][supersedes];
        if writes == 0 {
          return Some(WriteFailed);
        }
        scopes := Put(scopes, rec);
        if writes == 1 {
          return Some(WriteFailed);
        }
        scopes := Put(scopes, Marked(target, rec.memoryId));
        return Reported(synced);
      }
      if writes == 0 {
        return Some(WriteFailed);
      }
      scopes := Put(scopes, rec);
      fault := Reported(synced);
    }

    // The save handler; blocked is the verdict of the lint.
    method SaveMemory(input: Input, blocked: bool, now: string, idOf: IdOf, writes: nat, synced: bool)
        returns (r: Option<Record>, fault: Option<Fault>)
      modifies this
      ensures blocked ==> r == None && fault == None && scopes == old(scopes)
      ensures !blocked ==>
        var normal := Normalized(input);
        var rec := RecordOf(normal, now, idOf, Got(old(scopes), idOf(normal.projectId, normal.kind, normal.title)));
        && Saves(old(scopes), rec, normal.supersedes, writes, synced, scopes, fault)
        && r == if fault == None then Some(rec) else None
      ensures Valid(old(scopes)) ==> Valid(scopes)
    {
      if blocked {
        return None, None;
      }
      var normal := Normalized(input);
      hide Normalized, Saves, Valid;
      var existing := Get(idOf(normal.projectId, normal.kind, normal.title));
      var rec := RecordOf(normal, now, idOf, existing);
      fault := Save(rec, normal.supersedes, writes, synced);
      r := if fault == None then Some(rec) else None;
    }

    method Promote(id: string, passed: bool, now: string, idOf: IdOf, writes: nat, synced: bool)
        returns (r: Result<Record, PromotionFault>)
      modifies this
      ensures Refusal(old(scopes), id, passed, now, idOf).Some? ==>
        r == Err(Refusal(old(scopes), id, passed, now, idOf).value) && scopes == old(scopes)
      ensures Refusal(old(scopes), id, passed, now, idOf) == None ==>
        var successor := Successor(Got(old(scopes), id).value, now, idOf);
        exists fault :: Saves(old(scopes), successor, id, writes, synced, scopes, fault)
          && r == if fault == None then Ok(successor) else Err(SaveFailed(fault.value))
      ensures Valid(old(scopes)) ==> Valid(scopes)
    {
      hide Saves, Valid, Got;
      if !passed {
        return Err(EvalNotPassed);
      }
      if now == "" {
        return Err(NoTimestamp);
      }
      var found := Get(id);
      if found == None {
        return Err(SourceMissing);
      }
      var source := found.value;
      if source.source != "derived" {
        return Err(NotDerived);
      }
      if source.status != "active" {
        return Err(NotActive);
      }
      if source.kind == "convention" {
        return Err(AlreadyConvention);
      }
      if source.projectId == "" {
        return Err(GlobalSource);
      }
      var successor := Successor(source, now, idOf);
      var existing := Get(successor.memoryId);
      if existing.Some? && existing.value.memoryId != source.memoryId {
        return Err(SuccessorExists);
      }
      GotId(scopes, id);
      var fault := Save(successor, id, writes, synced);
      r := if fault == None then Ok(successor) else Err(SaveFailed(fault.value));
    }
  }

  lemma GotId(scopes: Scopes, id: string)
    ensures Got(scopes, id).Some? ==> Got(scopes, id).value.memoryId == id
  {
  }

  lemma GotHeld(scopes: Scopes, project: string, id: string)
    requires Valid(scopes) && IsMemoryId(id)
    ensures Holds(scopes, project, id) ==> Got(scopes, id) == Some(scopes[project][id])
  {
    if Holds(scopes, project, id) {
      assert Readable(project, id, scopes[project][id]);
      LocatedOnce(scopes, id, In(project));
    }
  }

  // Nothing a save does removes a record, and it changes none but its own and, by the marks of
  // supersession only, the one it supersedes.
  lemma SaveTouchesOnly(before: Scopes, rec: Record, supersedes: string, writes: nat, synced: bool, after: Scopes,
                        fault: Option<Fault>, project: string, id: string)
    requires Valid(before) && Saves(before, rec, supersedes, writes, synced, after, fault)
    requires Holds(before, project, id) && id != rec.memoryId
    ensures Holds(after, project, id)
    ensures after[project][id] == before[project][id]
      || (id == supersedes && writes >= 2 && after[project][id] == Marked(before[project][id], rec.memoryId))
  {
    hide IsMemoryId, ValidProjectId, ValidKind, ValidStatus, ValidSource, Linked;
    if RequestFault(rec, supersedes) == None {
      OpenKeeps(before, rec.projectId);
      var opened' := Opened(before, rec.projectId);
      assert Holds(opened', project, id) && opened'[project][id] == before[project][id];
      if supersedes != "" && id == supersedes {
        assert Readable(project, id, opened'[project][id]);
        LocatedOnce(opened', id, In(project));
      }
    }
  }

  // ---- what a cut promotion leaves behind ----

  // A promotion that gets past its checks can only fail in a write.
  lemma PromotionFailsInAWrite(
    before: Scopes, id: string, now: string, idOf: IdOf, writes: nat, synced: bool, mid: Scopes, fault: Fault)
    requires Valid(before) && Refusal(before, id, true, now, idOf) == None
    requires RequestFault(Successor(Got(before, id).value, now, idOf), id) == None
    requires Saves(before, Successor(Got(before, id).value, now, idOf), id, writes, synced, mid, Some(fault))
    ensures fault == WriteFailed && (writes <= 1 || !synced)
    ensures var source := Got(before, id).value;
      var rec := Successor(source, now, idOf);
      && source.projectId in before
      && mid == if writes == 0 then before
                else if writes == 1 then Put(before, rec)
                else Put(Put(before, rec), Marked(source, rec.memoryId))
  {
    var source := Got(before, id).value;
    var rec := Successor(source, now, idOf);
    GotId(before, id);
    var location := Locate(before, id);
    assert Reads(before, location.project, id);
    assert Opened(before, source.projectId) == before;
    if UsedElsewhere(before, rec.projectId, rec.memoryId) {
      var other :| other != rec.projectId && Holds(before, other, rec.memoryId);
      GotHeld(before, other, rec.memoryId);
      GotId(before, rec.memoryId);
    }
  }

  // A failed promotion can be tried again exactly when it failed before its first write. Cut between
  // the two, it leaves the derived memory active beside its successor, and no later promotion of it
  // gets past the check for an existing successor. Reported as failed when both are done, it has
  // superseded the derived memory.
  lemma CutPromotionExact(
    before: Scopes, id: string, now: string, later: string, idOf: IdOf, writes: nat, synced: bool, mid: Scopes,
    fault: Fault)
    requires Valid(before) && Refusal(before, id, true, now, idOf) == None && later != ""
    requires RequestFault(Successor(Got(before, id).value, now, idOf), id) == None
    requires Saves(before, Successor(Got(before, id).value, now, idOf), id, writes, synced, mid, Some(fault))
    ensures writes <= 1 ==> Got(mid, id) == Got(before, id)
    ensures Refusal(mid, id, true, later, idOf) ==
      if writes == 0 then None else if writes == 1 then Some(SuccessorExists) else Some(NotActive)
  {
    PromotionFailsInAWrite(before, id, now, idOf, writes, synced, mid, fault);
    if writes >= 1 {
      CutPromotionBlocksItself(before, id, now, later, idOf, writes, synced, mid);
    }
  }

  lemma CutPromotionBlocksItself(
    before: Scopes, id: string, now: string, later: string, idOf: IdOf, writes: nat, synced: bool, mid: Scopes)
    requires Valid(before) && Refusal(before, id, true, now, idOf) == None && later != "" && writes >= 1
    requires Saves(before, Successor(Got(before, id).value, now, idOf), id, writes, synced, mid, Some(WriteFailed))
    requires RequestFault(Successor(Got(before, id).value, now, idOf), id) == None
    ensures writes == 1 ==>
      Got(mid, id) == Got(before, id) && Refusal(mid, id, true, later, idOf) == Some(SuccessorExists)
    ensures writes > 1 ==> Refusal(mid, id, true, later, idOf) == Some(NotActive)
  {
    var source := Got(before, id).value;
    var rec := Successor(source, now, idOf);
    var project := source.projectId;
    GotId(before, id);
    PromotionFailsInAWrite(before, id, now, idOf, writes, synced, mid, WriteFailed);
    SaveKeeps(before, rec, id, writes, synced, mid, Some(WriteFailed));
    GotHeld(mid, project, id);
    GotHeld(mid, project, rec.memoryId);
    hide Valid, IsMemoryId, ValidProjectId, Saves;
    assert Holds(mid, project, rec.memoryId) && Holds(mid, project, id);
  }

  // ---- when a superseded memory becomes active again ----

  ghost predicate Superseded(scopes: Scopes, project: string, id: string) {
    Holds(scopes, project, id) && scopes[project][id].status == "superseded"
  }

  // The request is in order, and what it supersedes, if anything, may be superseded by it.
  ghost predicate Admitted(before: Scopes, rec: Record, supersedes: string) {
    && RequestFault(rec, supersedes) == None
    && (supersedes != "" ==> TargetFault(before, rec, supersedes, Locate(before, supersedes)) == None)
  }

  // Exactly a save of the same id in the same project that is admitted and gets to write makes a
  // superseded memory active again.
  lemma SaveRevivesExactly(
    before: Scopes, rec: Record, supersedes: string, writes: nat, synced: bool, after: Scopes, fault: Option<Fault>,
    project: string, id: string)
    requires Valid(before) && Fresh(rec) && Saves(before, rec, supersedes, writes, synced, after, fault)
    requires Superseded(before, project, id)
    ensures Holds(after, project, id)
    ensures !Superseded(after, project, id) <==>
      id == rec.memoryId && project == rec.projectId && writes >= 1 && Admitted(before, rec, supersedes)
  {
    if id != rec.memoryId {
      SaveTouchesOnly(before, rec, supersedes, writes, synced, after, fault, project, id);
    } else if project != rec.projectId {
      KeptElsewhere(before, rec, supersedes, writes, synced, after, fault, project);
    } else {
      SavedOver(before, rec, supersedes, writes, synced, after, fault);
    }
  }

  lemma KeptElsewhere(
    before: Scopes, rec: Record, supersedes: string, writes: nat, synced: bool, after: Scopes, fault: Option<Fault>,
    project: string)
    requires Saves(before, rec, supersedes, writes, synced, after, fault)
    requires Holds(before, project, rec.memoryId) && project != rec.projectId
    ensures Holds(after, project, rec.memoryId) && after[project][rec.memoryId] == before[project][rec.memoryId]
  {
    hide IsMemoryId, ValidProjectId, ValidKind, ValidStatus, ValidSource;
    var opened' := Opened(before, rec.projectId);
    assert Holds(opened', project, rec.memoryId) && opened'[project] == before[project];
    assert UsedElsewhere(opened', rec.projectId, rec.memoryId);
  }

  lemma SavedOver(
    before: Scopes, rec: Record, supersedes: string, writes: nat, synced: bool, after: Scopes, fault: Option<Fault>)
    requires Valid(before) && Fresh(rec) && Saves(before, rec, supersedes, writes, synced, after, fault)
    requires Holds(before, rec.projectId, rec.memoryId)
    ensures Holds(after, rec.projectId, rec.memoryId)
    ensures after[rec.projectId][rec.memoryId] ==
      if writes >= 1 && Admitted(before, rec, supersedes) then rec else before[rec.projectId][rec.memoryId]
  {
    hide IsMemoryId, ValidProjectId, ValidKind, ValidStatus, ValidSource, Linked;
    assert Opened(before, rec.projectId) == before;
    assert !UsedElsewhere(before, rec.projectId, rec.memoryId);
  }
}
