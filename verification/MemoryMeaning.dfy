// What a save and a promotion ask for and leave behind, in the fields of the records.
module MemoryMeaning {
  import opened Wrappers
  import opened Text
  import opened MemoryModel
  import opened MemoryStore
  import opened MemoryKeeper

  predicate HexId(id: string, prefix: string) {
    && |id| == |prefix| + 16 && HasPrefix(id, prefix)
    && forall i :: |prefix| <= i < |id| ==> id[i] in "0123456789abcdef"
  }

  // What a record and the id it supersedes must look like.
  predicate InOrder(rec: Record, supersedes: string) {
    && HexId(rec.memoryId, "mem_") && (rec.projectId == "" || HexId(rec.projectId, "prj_"))
    && rec.status in {"active", "superseded"} && rec.source in {"human", "derived"}
    && rec.kind in {"decision", "convention", "gotcha", "preference"}
    && (rec.projectId == "" ==> rec.kind == "preference")
    && (supersedes != "" ==> HexId(supersedes, "mem_") && supersedes != rec.memoryId)
  }

  // What it meets in a valid store: nobody else has its id, and what it supersedes is there, in its own
  // project, and not superseded by anything else.
  ghost predicate Fits(before: Scopes, rec: Record, supersedes: string) {
    && (forall p :: Holds(before, p, rec.memoryId) ==> p == rec.projectId)
    && (supersedes != "" ==>
          && Holds(before, rec.projectId, supersedes)
          && (before[rec.projectId][supersedes].status == "active"
              || before[rec.projectId][supersedes].supersededBy == rec.memoryId))
  }

  lemma HexDigits(c: char)
    ensures c in "0123456789abcdef" <==> '0' <= c <= '9' || 'a' <= c <= 'f'
  {
    var digits := "0123456789abcdef";
    assert forall i :: 0 <= i < 16 ==> digits[i] == if i < 10 then '0' + i as char else 'a' + (i - 10) as char;
    if '0' <= c <= '9' {
      assert digits[(c - '0') as int] == c;
    } else if 'a' <= c <= 'f' {
      assert digits[(c - 'a') as int + 10] == c;
    }
  }

  lemma IdsByText(id: string)
    ensures IsMemoryId(id) <==> HexId(id, "mem_")
    ensures ValidProjectId(id) <==> id == "" || HexId(id, "prj_")
  {
    if |id| == 20 {
      forall i | 4 <= i < 20 ensures id[i] in "0123456789abcdef" <==> '0' <= id[i] <= '9' || 'a' <= id[i] <= 'f' {
        HexDigits(id[i]);
      }
      assert LowerHex(id[4..]) <==> forall i :: 4 <= i < 20 ==> id[i] in "0123456789abcdef" by {
        assert forall i :: 4 <= i < 20 ==> id[4..][i - 4] == id[i];
        assert forall j :: 0 <= j < 16 ==> id[4..][j] == id[j + 4];
      }
    }
  }

  lemma RequestByText(rec: Record, supersedes: string)
    ensures RequestFault(rec, supersedes) == None <==> InOrder(rec, supersedes)
  {
    IdsByText(rec.memoryId);
    IdsByText(rec.projectId);
    IdsByText(supersedes);
    hide IsMemoryId, ValidProjectId, HexId;
  }

  // The reason a save gives holds.
  lemma FaultsByText(rec: Record, supersedes: string)
    requires RequestFault(rec, supersedes).Some?
    ensures match RequestFault(rec, supersedes).value
      case InvalidId => !HexId(rec.memoryId, "mem_")
      case InvalidProject => rec.projectId != "" && !HexId(rec.projectId, "prj_")
      case InvalidStatus => rec.status !in {"active", "superseded"}
      case InvalidKind => rec.kind !in {"decision", "convention", "gotcha", "preference"}
      case InvalidSource => rec.source !in {"human", "derived"}
      case GlobalNotPreference => rec.projectId == "" && rec.kind != "preference"
      case InvalidSupersedes => supersedes != "" && !HexId(supersedes, "mem_")
      case SupersedesItself => supersedes == rec.memoryId
      case _ => false
  {
    IdsByText(rec.memoryId);
    IdsByText(rec.projectId);
    IdsByText(supersedes);
    hide IsMemoryId, ValidProjectId, HexId;
  }

  // ---- a save ----

  // The store after a save: the record is there, what it supersedes says so, and nothing else changed.
  ghost predicate Superseding(before: Scopes, rec: Record, supersedes: string, after: Scopes) {
    && (forall p, id :: Holds(after, p, id) <==> Holds(before, p, id) || (p == rec.projectId && id == rec.memoryId))
    && Holds(after, rec.projectId, rec.memoryId) && after[rec.projectId][rec.memoryId] == rec
    && forall p, id :: Holds(before, p, id) && (p != rec.projectId || id != rec.memoryId) ==>
         if supersedes != "" && p == rec.projectId && id == supersedes then
           after[p][id] == before[p][id].(status := "superseded", supersededBy := rec.memoryId)
         else after[p][id] == before[p][id]
  }

  ghost predicate SameRecords(before: Scopes, after: Scopes) {
    forall p, id :: (Holds(after, p, id) <==> Holds(before, p, id)) && (Holds(before, p, id) ==> after[p][id] == before[p][id])
  }

  // A save that nothing cuts short succeeds exactly when the record is in order and fits into the store,
  // and then leaves the record and the mark on what it supersedes; otherwise it leaves every record as
  // it was.
  lemma SaveMeans(before: Scopes, rec: Record, supersedes: string, after: Scopes, fault: Option<Fault>)
    requires Valid(before) && Saves(before, rec, supersedes, 2, true, after, fault)
    ensures fault == None <==> InOrder(rec, supersedes) && Fits(before, rec, supersedes)
    ensures fault == None ==> Superseding(before, rec, supersedes, after)
    ensures fault != None ==> SameRecords(before, after)
  {
    RequestByText(rec, supersedes);
    assert InOrder(rec, supersedes) && supersedes != "" ==> supersedes != rec.memoryId;
    hide RequestFault, InOrder, IsMemoryId, ValidProjectId;
    if RequestFault(rec, supersedes) == None {
      var opened' := Opened(before, rec.projectId);
      OpenedSame(before, rec.projectId);
      UsedByText(before, opened', rec);
      if supersedes != "" {
        TargetByText(before, opened', rec, supersedes);
        if fault == None {
          var target := before[rec.projectId][supersedes];
          assert Readable(rec.projectId, supersedes, target);
          BothPuts(before, opened', rec, target);
        }
      } else {
        OnePut(before, opened', rec);
      }
      hide Locate, TargetFault, Valid, Superseding;
    }
  }

  lemma OnePut(before: Scopes, opened': Scopes, rec: Record)
    requires SameRecords(before, opened') && rec.projectId in opened'
    ensures Superseding(before, rec, "", Put(opened', rec))
  {
    var after := Put(opened', rec);
    forall p, id ensures Holds(after, p, id) <==> Holds(opened', p, id) || (p == rec.projectId && id == rec.memoryId) {
    }
    forall p, id | Holds(before, p, id) && (p != rec.projectId || id != rec.memoryId)
      ensures after[p][id] == opened'[p][id] {
    }
  }

  lemma BothPuts(before: Scopes, opened': Scopes, rec: Record, target: Record)
    requires SameRecords(before, opened') && rec.projectId in opened'
    requires Holds(before, rec.projectId, target.memoryId) && before[rec.projectId][target.memoryId] == target
    requires target.projectId == rec.projectId && target.memoryId != rec.memoryId && target.memoryId != ""
    ensures Superseding(before, rec, target.memoryId, Put(Put(opened', rec), Marked(target, rec.memoryId)))
  {
    var written := Put(opened', rec);
    OnePut(before, opened', rec);
    var after := Put(written, Marked(target, rec.memoryId));
    forall p, id ensures Holds(after, p, id) <==> Holds(written, p, id) {
    }
    forall p, id | Holds(written, p, id) && (p != rec.projectId || id != target.memoryId)
      ensures after[p][id] == written[p][id] {
    }
    assert after[rec.projectId][target.memoryId] == Marked(target, rec.memoryId);
  }

  lemma OpenedSame(before: Scopes, project: string)
    ensures SameRecords(before, Opened(before, project))
  {
  }

  lemma UsedByText(before: Scopes, opened': Scopes, rec: Record)
    requires SameRecords(before, opened')
    ensures !UsedElsewhere(opened', rec.projectId, rec.memoryId) <==>
      forall p :: Holds(before, p, rec.memoryId) ==> p == rec.projectId
  {
  }

  lemma TargetByText(before: Scopes, opened': Scopes, rec: Record, supersedes: string)
    requires Valid(before) && SameRecords(before, opened') && supersedes != ""
    ensures var location := Locate(opened', supersedes);
      && (TargetFault(opened', rec, supersedes, location) == None <==>
            && Holds(before, rec.projectId, supersedes)
            && (before[rec.projectId][supersedes].status == "active"
                || before[rec.projectId][supersedes].supersededBy == rec.memoryId))
      && (TargetFault(opened', rec, supersedes, location) == None ==> location == In(rec.projectId))
  {
    hide IsMemoryId, ValidProjectId;
    var location := Locate(opened', supersedes);
    forall p ensures Reads(opened', p, supersedes) <==> Holds(before, p, supersedes) {
      if Holds(before, p, supersedes) {
        assert Readable(p, supersedes, before[p][supersedes]);
      }
    }
    if Holds(before, rec.projectId, supersedes) {
      LocatedOnce(opened', supersedes, In(rec.projectId));
    }
  }

  // ---- the save handler ----

  // A memory that is saved is active, says what its input says without the white space around it, has the
  // id of its project, kind and title, and keeps the time of a record with that id.
  lemma SavedSays(input: Input, now: string, idOf: IdOf, existing: Option<Record>)
    ensures var rec := RecordOf(Normalized(input), now, idOf, existing);
      && rec.projectId == TrimSpace(input.projectId) && rec.kind == TrimSpace(input.kind)
      && rec.title == TrimSpace(input.title) && rec.body == TrimSpace(input.body)
      && rec.source == TrimSpace(input.source) && rec.evidence == input.evidence
      && rec.memoryId == idOf(rec.projectId, rec.kind, rec.title)
      && rec.status == "active" && rec.supersededBy == "" && rec.updatedAt == now
      && (existing == None ==> rec.createdAt == now)
      && (forall old' :: existing == Some(old') ==> rec.createdAt == old'.createdAt)
    ensures Normalized(input).supersedes == TrimSpace(input.supersedes)
  {
    hide TrimSpace;
  }

  // ---- promotion ----

  // A promotion is not refused exactly for a derived, active memory of a project that is no convention
  // yet, when the evaluation passed, a time is given and no other record has the id of the convention.
  lemma RefusalMeans(scopes: Scopes, id: string, passed: bool, now: string, idOf: IdOf)
    requires Valid(scopes)
    ensures Refusal(scopes, id, passed, now, idOf) == None <==>
      && passed && now != "" && HexId(id, "mem_")
      && exists p :: p != "" && Holds(scopes, p, id) && (
           var source := scopes[p][id];
           && source.source == "derived" && source.status == "active" && source.kind != "convention"
           && var next := idOf(p, "convention", source.title);
              next == id || !HexId(next, "mem_") || forall q :: !Holds(scopes, q, next))
  {
    IdsByText(id);
    hide IsMemoryId, HexId;
    GotMeans(scopes, id);
    if Got(scopes, id).Some? {
      var source := Got(scopes, id).value;
      var next := idOf(source.projectId, "convention", source.title);
      IdsByText(next);
      GotMeans(scopes, next);
      GotId(scopes, next);
      GotId(scopes, id);
    }
    hide Got, Valid;
  }

  lemma GotMeans(scopes: Scopes, id: string)
    requires Valid(scopes)
    ensures Got(scopes, id).Some? <==> IsMemoryId(id) && exists p :: Holds(scopes, p, id)
    ensures forall p :: IsMemoryId(id) && Holds(scopes, p, id) ==>
      Got(scopes, id) == Some(scopes[p][id]) && scopes[p][id].projectId == p
  {
    hide IsMemoryId, ValidProjectId;
    if IsMemoryId(id) {
      forall p | Holds(scopes, p, id)
        ensures Got(scopes, id) == Some(scopes[p][id]) && scopes[p][id].projectId == p {
        GotHeld(scopes, p, id);
        assert Readable(p, id, scopes[p][id]);
      }
      if Got(scopes, id).Some? {
        assert Holds(scopes, Locate(scopes, id).project, id);
      }
    }
  }

  // The convention says what the derived memory says, is active, and starts at the time of the promotion.
  lemma PromotedSays(source: Record, now: string, idOf: IdOf)
    ensures var rec := Successor(source, now, idOf);
      && rec.memoryId == idOf(source.projectId, "convention", source.title) && rec.kind == "convention"
      && rec.status == "active" && rec.supersededBy == "" && rec.createdAt == now && rec.updatedAt == now
      && rec.projectId == source.projectId && rec.title == source.title && rec.body == source.body
      && rec.evidence == source.evidence && rec.source == source.source
  {
  }
}
