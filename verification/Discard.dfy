// Discarding a run: the worktree's patch is archived before anything is removed, so that a crash
// at any point loses nothing and one more complete attempt finishes the job.
module Discard {
  import opened Wrappers
  import opened RunState

  // hasArchive and archiveDigest are the record's reference to the archived patch.
  datatype Record = Record(status: Status, hasArchive: bool, archiveDigest: string)

  // Everything durable. registered, locked and branchMatches are git's worktree metadata.
  datatype Disk = Disk(
    present: bool, tree: Tree,
    registered: bool, locked: bool, branchMatches: bool,
    branch: bool,
    archive: Option<Patch>,
    record: Record)

  type Digest = Patch -> string

  ghost predicate Hashes(digest: Digest) {
    forall p :: digest(p) != ""
  }

  // validateArchiveReference.
  predicate ArchiveMatches(d: Disk, digest: Digest) {
    && d.record.archiveDigest != ""
    && d.archive.Some? && d.archive.value != map[]
    && digest(d.archive.value) == d.record.archiveDigest
  }

  predicate Refused(d: Disk, digest: Digest) {
    || !Transition(d.record.status, Discarded)
    || (d.present && !d.registered)
    || (d.registered && !d.branchMatches)
    || (!d.present && d.record.hasArchive && !ArchiveMatches(d, digest))
  }

  // ---- the durable steps, in order ----

  function Archived(d: Disk, base: Tree): Disk {
    var patch := Diff(base, d.tree);
    if patch == map[] then d else d.(archive := Some(patch))
  }

  function Noted(d: Disk, base: Tree, digest: Digest): Disk {
    var patch := Diff(base, d.tree);
    d.(record := d.record.(
      hasArchive := patch != map[],
      archiveDigest := if patch == map[] then "" else digest(patch)))
  }

  function Unlocked(d: Disk): Disk { d.(locked := false) }

  function TreeRemoved(d: Disk): Disk { d.(present := false, tree := map[]) }

  function Deregistered(d: Disk): Disk { d.(registered := false) }

  function BranchDeleted(d: Disk): Disk { d.(branch := false) }

  function Finished(d: Disk): Disk { d.(record := d.record.(status := Discarded)) }

  // What happens before the worktree is out of the way: archive, record, unlock, and git's removal of
  // the tree and then of its metadata; or, where the tree is gone already, unlock and prune what git
  // still knows of it.
  function ClearTrace(d: Disk, base: Tree, digest: Digest): (trace: seq<Disk>)
    ensures trace != [] && trace[0] == d
  {
    if d.present then
      var archived := Archived(d, base);
      var noted := Noted(archived, base, digest);
      var removed := TreeRemoved(Unlocked(noted));
      [d, archived, noted, Unlocked(noted), removed, Deregistered(removed)]
    else [d, Unlocked(d), Deregistered(Unlocked(d))]
  }

  // The branch goes, a last prune, and the record.
  function FinishTrace(d: Disk): seq<Disk> {
    var pruned := Deregistered(BranchDeleted(d));
    [BranchDeleted(d), pruned, Finished(pruned)]
  }

  // The states an attempt goes through, each durable before the next begins.
  function Trace(d: Disk, base: Tree, digest: Digest): (trace: seq<Disk>)
    ensures trace != [] && trace[0] == d
  {
    if Refused(d, digest) then [d]
    else
      var clear := ClearTrace(d, base, digest);
      clear + FinishTrace(clear[|clear| - 1])
  }

  function Final(d: Disk, base: Tree, digest: Digest): Disk {
    var trace := Trace(d, base, digest);
    trace[|trace| - 1]
  }

  // ---- what an attempt comes to ----

  // The archive is there, holds something and has the recorded digest.
  predicate Vouched(archive: Option<Patch>, archiveDigest: string, digest: Digest) {
    archiveDigest != "" && archive.Some? && archive.value != map[] && digest(archive.value) == archiveDigest
  }

  // A patch that is not empty has been archived under its digest; of an empty one there is no archive on
  // record, and what was archived before is untouched.
  predicate Archives(archive: Option<Patch>, record: Record, patch: Patch, digest: Digest, was: Option<Patch>) {
    if patch == map[] then archive == was && !record.hasArchive && record.archiveDigest == ""
    else archive == Some(patch) && record.hasArchive && record.archiveDigest == digest(patch)
  }

  lemma RefusedMeans(d: Disk, digest: Digest)
    ensures Refused(d, digest) <==>
      || d.record.status == Applied
      || (d.present && !d.registered)
      || (d.registered && !d.branchMatches)
      || (!d.present && d.record.hasArchive && !Vouched(d.archive, d.record.archiveDigest, digest))
  {
  }

  // The status stays to the last step of an attempt that is not refused, which makes it discarded.
  lemma TraceStatus(d: Disk, base: Tree, digest: Digest)
    ensures var trace := Trace(d, base, digest);
      && (Refused(d, digest) ==> trace == [d])
      && (forall k :: 0 <= k < |trace| && (Refused(d, digest) || k < |trace| - 1) ==>
            trace[k].record.status == d.record.status)
  {
    hide Diff, Refused;
  }

  lemma FinalMeans(d: Disk, base: Tree, digest: Digest)
    ensures !Refused(d, digest) ==>
      var f := Final(d, base, digest);
      && f.record.status == Discarded && !f.present && !f.registered && !f.locked && !f.branch
      && if d.present then Archives(f.archive, f.record, Diff(base, d.tree), digest, d.archive)
         else f.archive == d.archive && f.record == d.record.(status := Discarded)
  {
    hide Diff, Refused;
  }

  // ---- the code ----

  datatype Outcome = Complete | Refusal | Interrupted

  class Workspace {
    const base: Tree
    const digest: Digest

    var present: bool
    var tree: Tree
    var registered: bool
    var locked: bool
    var branchMatches: bool
    var branch: bool
    var archive: Option<Patch>
    var record: Record

    ghost function Abs(): Disk
      reads this
    {
      Disk(present, tree, registered, locked, branchMatches, branch, archive, record)
    }

    // Each method dies after crash durable steps, or completes.
    method ClearWorktree(crash: nat) returns (interrupted: bool)
      modifies this
      ensures var trace := ClearTrace(old(Abs()), base, digest);
        Abs() == trace[if crash < |trace| then crash else |trace| - 1] && (interrupted <==> crash < |trace| - 1)
    {
      hide Diff;
      interrupted := true;
      if present {
        if crash == 0 {
          return;
        }
        var patch := Diff(base, tree);
        if patch != map[] {
          archive := Some(patch);
        }
        if crash == 1 {
          return;
        }
        record := record.(hasArchive := patch != map[], archiveDigest := if patch == map[] then "" else digest(patch));
        if crash == 2 {
          return;
        }
        locked := false;
        if crash == 3 {
          return;
        }
        present, tree := false, map[];
        if crash == 4 {
          return;
        }
        registered := false;
      } else {
        if crash == 0 {
          return;
        }
        locked := false;
        if crash == 1 {
          return;
        }
        registered := false;
      }
      interrupted := false;
    }

    method FinishDiscard(crash: nat) returns (interrupted: bool)
      modifies this
      ensures var trace := [old(Abs())] + FinishTrace(old(Abs()));
        Abs() == trace[if crash < 3 then crash else 3] && (interrupted <==> crash < 3)
    {
      interrupted := true;
      if crash == 0 {
        return;
      }
      branch := false;
      if crash == 1 {
        return;
      }
      registered := false;
      if crash == 2 {
        return;
      }
      record := record.(status := Discarded);
      interrupted := false;
    }

    // crash counts the durable steps the attempt survives.
    method DiscardRun(crash: nat) returns (outcome: Outcome)
      modifies this
      ensures outcome == Refusal <==> Refused(old(Abs()), digest)
      ensures var trace := Trace(old(Abs()), base, digest);
        && Abs() == trace[if crash < |trace| then crash else |trace| - 1]
        && (outcome == Complete <==> !Refused(old(Abs()), digest) && crash >= |trace| - 1)
      ensures outcome == Complete ==> Abs() == Final(old(Abs()), base, digest)
      // Refused is an applied run, a worktree git does not know, a foreign branch, and a worktree that is
      // gone without the archive its record speaks of; then nothing is touched.
      ensures outcome == Refusal <==>
        || old(record).status == Applied
        || (old(present) && !old(registered))
        || (old(registered) && !old(branchMatches))
        || (!old(present) && old(record).hasArchive && !Vouched(old(archive), old(record).archiveDigest, digest))
      ensures outcome == Refusal ==> Abs() == old(Abs())
      // Only a complete attempt moves the status, and only to discarded.
      ensures outcome != Complete ==> record.status == old(record).status
      ensures outcome == Complete ==> old(record).status != Applied && record.status == Discarded
      ensures outcome == Complete ==> !present && !registered && !locked && !branch
      ensures outcome == Complete ==>
        if old(present) then Archives(archive, record, Diff(base, old(tree)), digest, old(archive))
        else archive == old(archive) && record == old(record).(status := Discarded)
    {
      ghost var start := Abs();
      TraceParts(start, base, digest);
      RefusedMeans(start, digest);
      TraceStatus(start, base, digest);
      FinalMeans(start, base, digest);
      if !Transition(record.status, Discarded) || (present && !registered) || (registered && !branchMatches) {
        return Refusal;
      }
      if !present && record.hasArchive && !MatchesArchive() {
        return Refusal;
      }
      var steps := if present then 5 else 2;
      hide ClearTrace, FinishTrace, Trace;
      var interrupted := ClearWorktree(crash);
      if interrupted {
        return Interrupted;
      }
      interrupted := FinishDiscard(crash - steps);
      outcome := if interrupted then Interrupted else Complete;
    }

    predicate MatchesArchive()
      reads this
    {
      && record.archiveDigest != "" && archive.Some? && archive.value != map[]
      && digest(archive.value) == record.archiveDigest
    }
  }

  // The trace of an attempt that is not refused: clearing, then, from its last state, finishing.
  lemma TraceParts(d: Disk, base: Tree, digest: Digest)
    ensures
      var clear, trace := ClearTrace(d, base, digest), Trace(d, base, digest);
      var last := |clear| - 1;
      var finish := [clear[last]] + FinishTrace(clear[last]);
      && last == (if d.present then 5 else 2)
      && (Refused(d, digest) ==> trace == [d])
      && (!Refused(d, digest) ==>
            && |trace| == last + 4
            && (forall k :: 0 <= k <= last ==> trace[k] == clear[k])
            && trace[last] == finish[0] && trace[last + 1] == finish[1]
            && trace[last + 2] == finish[2] && trace[last + 3] == finish[3])
  {
    hide Refused;
  }

  // ---- nothing is lost ----

  // The patch is still in the worktree, or in an archive the record vouches for.
  ghost predicate Survives(d: Disk, base: Tree, digest: Digest, patch: Patch) {
    || (d.present && Diff(base, d.tree) == patch)
    || (d.archive == Some(patch) && d.record.hasArchive && d.record.archiveDigest == digest(patch))
  }

  // Another attempt can take it from here.
  ghost predicate Recoverable(d: Disk, base: Tree, digest: Digest, patch: Patch) {
    && Transition(d.record.status, Discarded)
    && (d.present ==> d.registered && Diff(base, d.tree) == patch)
    && (d.registered ==> d.branchMatches)
    && (!d.present ==> if patch == map[] then !d.record.hasArchive else Survives(d, base, digest, patch))
  }

  ghost predicate FullyDiscarded(d: Disk, digest: Digest, patch: Patch) {
    && d.record.status == Discarded && !d.branch && !d.present && !d.registered
    && (patch != map[] ==> d.archive == Some(patch) && d.record.hasArchive && d.record.archiveDigest == digest(patch))
  }

  // At every crash point the patch survives and the run stays recoverable.
  lemma EveryCrashPointIsRecoverable(d: Disk, base: Tree, digest: Digest, patch: Patch, k: nat)
    requires Hashes(digest) && Recoverable(d, base, digest, patch) && k < |Trace(d, base, digest)|
    ensures Recoverable(Trace(d, base, digest)[k], base, digest, patch)
    ensures patch != map[] ==> Survives(Trace(d, base, digest)[k], base, digest, patch)
  {
    hide Diff;
    AttemptIsNotRefused(d, base, digest, patch);
  }

  lemma AttemptIsNotRefused(d: Disk, base: Tree, digest: Digest, patch: Patch)
    requires Hashes(digest) && Recoverable(d, base, digest, patch)
    ensures !Refused(d, digest)
  {
    hide Diff;
  }

  // A complete attempt ends discarded, with the branch gone and the archive intact.
  lemma CompleteAttemptDiscards(d: Disk, base: Tree, digest: Digest, patch: Patch)
    requires Hashes(digest) && Recoverable(d, base, digest, patch)
    ensures FullyDiscarded(Final(d, base, digest), digest, patch)
  {
    hide Diff;
    AttemptIsNotRefused(d, base, digest, patch);
  }

  // The state after one crashed attempt per entry, each surviving that many durable steps.
  ghost function AfterCrashes(d: Disk, base: Tree, digest: Digest, crashes: seq<nat>): Disk
    decreases |crashes|
  {
    if crashes == [] then d
    else
      var trace := Trace(d, base, digest);
      AfterCrashes(trace[if crashes[0] < |trace| then crashes[0] else |trace| - 1], base, digest, crashes[1..])
  }

  // However many attempts crash, wherever they do, the patch survives and one complete attempt
  // finishes the discard.
  lemma {:induction false} CrashesLoseNothing(d: Disk, base: Tree, digest: Digest, patch: Patch, crashes: seq<nat>)
    requires Hashes(digest) && Recoverable(d, base, digest, patch)
    ensures var after := AfterCrashes(d, base, digest, crashes);
      && (patch != map[] && crashes != [] ==> Survives(after, base, digest, patch))
      && Recoverable(after, base, digest, patch)
      && FullyDiscarded(Final(after, base, digest), digest, patch)
    decreases |crashes|
  {
    hide Diff, Trace, Recoverable, Survives, FullyDiscarded, Final;
    if crashes == [] {
      CompleteAttemptDiscards(d, base, digest, patch);
    } else {
      var trace := Trace(d, base, digest);
      var k := if crashes[0] < |trace| then crashes[0] else |trace| - 1;
      EveryCrashPointIsRecoverable(d, base, digest, patch, k);
      CrashesLoseNothing(trace[k], base, digest, patch, crashes[1..]);
      if crashes[1..] == [] {
        assert AfterCrashes(trace[k], base, digest, crashes[1..]) == trace[k];
      }
    }
  }

  // The removal of the worktree has to be all or nothing: an attempt that finds it half removed
  // archives what is left over the good archive.
  lemma TornRemovalIsNotRecovered(d: Disk, base: Tree, digest: Digest, torn: Tree)
    requires Hashes(digest) && Recoverable(d, base, digest, Diff(base, d.tree)) && d.present
    requires Diff(base, d.tree) != map[]
    ensures var half := Unlocked(Noted(Archived(d, base), base, digest)).(tree := torn);
      FullyDiscarded(Final(half, base, digest), digest, Diff(base, d.tree)) <==> torn == d.tree
  {
    var patch := Diff(base, d.tree);
    var half := Unlocked(Noted(Archived(d, base), base, digest)).(tree := torn);
    if Diff(base, torn) == patch {
      SamePatchSameTree(base, torn, d.tree);
    }
    hide Diff;
    CompleteAttemptDiscards(half, base, digest, Diff(base, torn));
  }
}
