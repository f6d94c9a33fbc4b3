// Review and apply of one run. The methods hold the run-state lock, which serialises them; edits
// of the worktree, of the branch head and a new receipt may interleave between any two git
// calls, and the process may die between any two steps.
module RunProtocol {
  import opened Wrappers
  import opened RunState
  import Scope

  const MAX_RECEIPT_AGE := 24 * 60 * 60
  const MAX_CLOCK_SKEW := 5 * 60

  datatype Run = Run(status: Status, reviewedDigest: string, appliedCommit: Sha)

  // sameRun and signed stand for the run id comparison and the signature check.
  datatype Receipt = Receipt(sameRun: bool, digest: string, verdict: string, createdAt: int, signed: bool)

  // Everything apply reads besides git and the run record, and which of its writes succeed.
  datatype Request = Request(
    identityOk: bool, integrityOk: bool, destructiveApproved: bool,
    protectedReadable: bool, protected: seq<string>,
    policyReadable: bool, policyPresent: bool, policyAllows: bool,
    verified: bool, auditWritable: bool, keyReadable: bool, now: int, markerWritable: bool, saveWritable: bool)

  datatype Outcome =
    | Pinned
    | Blocked
    | Failed
    | Applied(commit: Sha)
    | RolledBack
    | Stranded(commit: Sha)
    | Crashed

  predicate ReceiptValid(receipt: Receipt, digest: string, now: int) {
    && receipt.sameRun && receipt.digest == digest && receipt.signed
    && receipt.verdict in {"approve", "reject", "escalate"}
    && receipt.createdAt <= now + MAX_CLOCK_SKEW
    && now - receipt.createdAt <= MAX_RECEIPT_AGE
  }

  // Every changed file is allowed, not forbidden and not protected.
  predicate FilesPass(patch: Patch, allowed: seq<string>, forbidden: seq<string>, protected: seq<string>) {
    forall p :: p in patch ==> !Scope.ScopesConflict(p, allowed, forbidden) && !Scope.MatchesAny(p, protected)
  }

  // The receipt approves the run and digest, is signed and of age: at most a day old, and not from more
  // than five minutes ahead.
  predicate Approves(receipt: Option<Receipt>, digest: string, now: int) {
    && receipt.Some?
    && receipt.value.verdict == "approve" && receipt.value.digest == digest
    && receipt.value.sameRun && receipt.value.signed
    && -300 <= now - receipt.value.createdAt <= 86400
  }

  // The run's commit was made: it is persisted, taken back, left behind or cut off before its record.
  predicate Commits(outcome: Outcome, crash: nat) {
    outcome.Applied? || outcome.RolledBack? || outcome.Stranded? || (outcome.Crashed? && crash == 2)
  }

  // Distinct commits have distinct names, and no commit can name itself as its parent.
  ghost predicate NamesDiffer(name: Commit -> Sha) {
    && (forall c, d :: name(c) == name(d) ==> c == d)
    && forall c :: name(c) != c.parent
  }

  lemma NotItsParent(name: Commit -> Sha, c: Commit)
    requires NamesDiffer(name)
    ensures name(c) != c.parent
  {
  }

  class Repo {
    const base: Sha
    const allowed: seq<string>
    const forbidden: seq<string>
    // The digest of a patch and the name of a commit object.
    const digest: Patch -> string
    const name: Commit -> Sha

    var head: Sha
    var commits: map<Sha, Commit>
    var worktree: Tree
    var run: Run
    var receipt: Option<Receipt>
    var receiptUsed: bool

    // The tree the last review saw, and the patch and protected paths the last scope check passed.
    ghost var reviewedTree: Tree
    ghost var passed: Patch
    ghost var passedProtected: seq<string>

    ghost predicate Named()
      reads `head, `commits
    {
      && base in commits && head in commits
      && (forall s :: s in commits ==> name(commits[s]) == s)
      && NamesDiffer(name)
    }

    // A new run on the base, its worktree the base's tree.
    constructor (commit: Commit, allowed: seq<string>, forbidden: seq<string>, digest: Patch -> string, name: Commit -> Sha)
      requires NamesDiffer(name)
      ensures Valid() && run.status == Open && !receiptUsed
      ensures base == name(commit) == head && worktree == commit.tree == BaseTree()
      ensures this.allowed == allowed && this.forbidden == forbidden && this.digest == digest && this.name == name
    {
      this.allowed, this.forbidden, this.digest, this.name := allowed, forbidden, digest, name;
      base, head, commits := name(commit), name(commit), map[name(commit) := commit];
      worktree, run := commit.tree, Run(Open, "", "");
      receipt, receiptUsed := None, false;
      reviewedTree, passed, passedProtected := map[], map[], [];
    }

    twostate predicate CommitsKept()
      reads `commits
    {
      forall s :: s in old(commits) ==> s in commits && commits[s] == old(commits)[s]
    }

    function BaseTree(): Tree
      reads `commits
      requires base in commits
    {
      commits[base].tree
    }

    // A run persisted as applied names a commit on top of the base whose patch has the reviewed
    // digest, as had a patch all of whose files passed the checks.
    ghost predicate AppliedOk()
      reads `run, `commits, `passed, `passedProtected
      requires base in commits
    {
      run.status == RunState.Applied ==>
        && run.appliedCommit in commits
        && commits[run.appliedCommit].parent == base
        && digest(Diff(BaseTree(), commits[run.appliedCommit].tree)) == run.reviewedDigest
        && digest(passed) == run.reviewedDigest
        && FilesPass(passed, allowed, forbidden, passedProtected)
    }

    ghost predicate ReviewOk()
      reads `run, `commits, `reviewedTree
      requires base in commits
    {
      run.status == Reviewed || run.status == RunState.Applied ==>
        digest(Diff(BaseTree(), reviewedTree)) == run.reviewedDigest
    }

    ghost predicate Valid()
      reads this
    {
      Named() && AppliedOk() && ReviewOk()
    }

    // commit-tree: writes the object under its name.
    method StoreCommit(commit: Commit) returns (sha: Sha)
      requires Valid()
      modifies this`commits
      ensures Valid() && sha == name(commit) && sha in commits && commits[sha] == commit
      ensures CommitsKept()
    {
      sha := name(commit);
      if sha !in commits {
        commits := commits[sha := commit];
      }
    }

    // What others may do between two steps: edit files, commit or move the branch, and leave a
    // receipt where there is none. A quiet repository sees none of it.
    method Interfere(quiet: bool)
      requires Valid()
      modifies this`head, this`commits, this`worktree, this`receipt
      ensures Valid()
      ensures CommitsKept()
      ensures old(receipt).Some? ==> receipt == old(receipt)
      ensures quiet ==> head == old(head) && commits == old(commits) && worktree == old(worktree) && receipt == old(receipt)
    {
      if quiet {
        return;
      }
      worktree := *;
      if receipt.None? {
        receipt := *;
      }
      if * {
        var parent: Sha, tree: Tree := *, *;
        head := StoreCommit(Commit(parent, tree));
      } else if * {
        var target: Sha := *;
        if target in commits {
          head := target;
        }
      }
    }

    // Any status may become corrupted.
    method Corrupt()
      requires Valid()
      modifies this`run
      ensures Valid() && run == old(run).(status := Corrupted) && Transition(old(run).status, Corrupted)
    {
      run := run.(status := Corrupted);
    }

    // jacu_diff: pins the digest of what the worktree holds now.
    // crashes says whether the process dies before the record is saved.
    method Review(identityOk: bool, writable: bool, crashes: bool, quiet: bool) returns (outcome: Outcome)
      requires Valid()
      modifies this
      ensures Valid()
      ensures CommitsKept() && receiptUsed == old(receiptUsed)
      ensures run == old(run) || (run.status == Reviewed && Transition(old(run).status, Reviewed))
      ensures old(run).status == RunState.Applied ==> run == old(run)
      ensures outcome.Pinned? ==> run.status == Reviewed
      ensures !outcome.Pinned? ==> run == old(run)
      ensures outcome.Blocked? <==> !identityOk
      ensures outcome.Pinned? <==>
        identityOk && (old(run).status == Open || old(run).status == Reviewed) && !crashes && writable
      ensures quiet ==> head == old(head) && commits == old(commits) && worktree == old(worktree) && receipt == old(receipt)
      ensures quiet && outcome.Pinned? ==>
        run == old(run).(status := Reviewed, reviewedDigest := digest(Diff(old(BaseTree()), old(worktree))))
    {
      if !identityOk {
        return Blocked;
      }
      Interfere(quiet);
      var tree := worktree;
      var patch := Diff(BaseTree(), tree);
      if !Transition(run.status, Reviewed) {
        return Failed;
      }
      if crashes {
        return Crashed;
      }
      Interfere(quiet);
      if !writable {
        return Failed;
      }
      reviewedTree := tree;
      run := run.(status := Reviewed, reviewedDigest := digest(patch));
      outcome := Pinned;
    }

    // The checks before verification: the digest still is the reviewed one and every file passes.
    method CheckSnapshot(request: Request, quiet: bool) returns (ok: bool)
      requires Valid() && run.status == Reviewed
      modifies this`head, this`commits, this`worktree, this`receipt, this`passed, this`passedProtected
      ensures Valid()
      ensures CommitsKept()
      ensures old(receipt).Some? ==> receipt == old(receipt)
      ensures quiet ==> head == old(head) && commits == old(commits) && worktree == old(worktree) && receipt == old(receipt)
      ensures ok ==> digest(passed) == run.reviewedDigest && FilesPass(passed, allowed, forbidden, passedProtected)
      ensures quiet ==> (ok <==> SnapshotPasses(request))
    {
      Interfere(quiet);
      var patch := Diff(BaseTree(), worktree);
      if digest(patch) != run.reviewedDigest || !request.integrityOk {
        return false;
      }
      if !request.protectedReadable || !FilesPass(patch, allowed, forbidden, request.protected) {
        return false;
      }
      if !request.destructiveApproved || !request.policyReadable {
        return false;
      }
      passed, passedProtected := patch, request.protected;
      ok := true;
    }

    predicate SnapshotPasses(request: Request)
      reads this
      requires base in commits
    {
      var patch := Diff(BaseTree(), worktree);
      && digest(patch) == run.reviewedDigest && request.integrityOk
      && request.protectedReadable && FilesPass(patch, allowed, forbidden, request.protected)
      && request.destructiveApproved && request.policyReadable
    }

    // Verification runs against the live worktree; afterwards the head must still be the base and
    // the pinned tree must still have the reviewed digest.
    method VerifyAndPin(request: Request, quiet: bool) returns (ok: bool, tree: Tree)
      requires Valid() && run.status == Reviewed
      modifies this`head, this`commits, this`worktree, this`receipt
      ensures Valid()
      ensures CommitsKept()
      ensures old(receipt).Some? ==> receipt == old(receipt)
      ensures quiet ==> head == old(head) && commits == old(commits) && worktree == old(worktree) && receipt == old(receipt)
      ensures ok ==> digest(Diff(BaseTree(), tree)) == run.reviewedDigest
      ensures quiet && digest(Diff(BaseTree(), worktree)) == run.reviewedDigest ==>
        (ok <==> request.verified && head == base) && (ok ==> tree == worktree)
    {
      Interfere(quiet);
      tree := worktree;
      if !request.verified {
        return false, tree;
      }
      Interfere(quiet);
      if head != base {
        return false, tree;
      }
      Interfere(quiet);
      tree := worktree;
      Interfere(quiet);
      ok := digest(Diff(BaseTree(), tree)) == run.reviewedDigest;
    }

    // ConsumeReviewReceipt and the policy decision: a receipt is good for one attempt.
    method ConsumeReceipt(request: Request) returns (allowed': bool)
      requires Valid()
      modifies this`receiptUsed
      ensures Valid()
      ensures allowed' <==> !old(receiptUsed) && ReceiptAllows(request)
      ensures receiptUsed <==> old(receiptUsed) || ReceiptAccepted(request)
    {
      if !request.keyReadable || receipt.None? || !ReceiptValid(receipt.value, run.reviewedDigest, request.now) {
        return false;
      }
      if receiptUsed {
        return false;
      }
      receiptUsed := true;
      if !request.markerWritable {
        receiptUsed := false;
        return false;
      }
      allowed' := receipt.value.verdict == "approve" && request.policyAllows;
    }

    // The receipt is valid for the run and its use can be recorded, whatever it says.
    predicate ReceiptAccepted(request: Request)
      reads `receipt, `run
    {
      && request.keyReadable && receipt.Some? && request.markerWritable
      && ReceiptValid(receipt.value, run.reviewedDigest, request.now)
    }

    predicate ReceiptAllows(request: Request)
      reads `receipt, `run
    {
      ReceiptAccepted(request) && receipt.value.verdict == "approve" && request.policyAllows
    }

    lemma AllowsApproved(request: Request)
      ensures ReceiptAllows(request) <==>
        Approves(receipt, run.reviewedDigest, request.now)
        && request.keyReadable && request.markerWritable && request.policyAllows
    {
    }

    // CommitTree: a commit on top of the base, made the head by compare-and-swap.
    method CommitTree(tree: Tree, quiet: bool) returns (ok: bool, sha: Sha)
      requires Valid()
      modifies this`head, this`commits, this`worktree, this`receipt
      ensures Valid() && sha in commits && commits[sha] == Commit(base, tree)
      ensures CommitsKept()
      ensures old(receipt).Some? ==> receipt == old(receipt)
      ensures sha != base
      ensures ok ==> head == sha
      ensures quiet ==> (ok <==> old(head) == base) && (!ok ==> head == old(head))
      ensures quiet ==> worktree == old(worktree) && receipt == old(receipt)
    {
      hide AppliedOk, ReviewOk, NamesDiffer;
      Interfere(quiet);
      sha := StoreCommit(Commit(base, tree));
      NotItsParent(name, Commit(base, tree));
      Interfere(quiet);
      ok := head == base;
      if ok {
        head := sha;
      }
    }

    // Persists the applied record; a failed save is rolled back by a second compare-and-swap.
    method SaveOrRollBack(sha: Sha, request: Request, quiet: bool) returns (outcome: Outcome)
      requires Valid() && run.status == Reviewed && sha in commits && commits[sha].parent == base
      requires digest(Diff(BaseTree(), commits[sha].tree)) == run.reviewedDigest
      requires digest(passed) == run.reviewedDigest && FilesPass(passed, allowed, forbidden, passedProtected)
      requires quiet ==> head == sha
      modifies this`head, this`commits, this`worktree, this`receipt, this`run
      ensures Valid()
      ensures outcome == Outcome.Applied(sha) || outcome == RolledBack || outcome == Stranded(sha)
      ensures outcome.Applied? <==> request.saveWritable
      ensures run == if outcome.Applied? then old(run).(status := RunState.Applied, appliedCommit := sha) else old(run)
      ensures outcome.RolledBack? ==> head == base
      ensures outcome.Stranded? ==> head != sha
      ensures old(receipt).Some? ==> receipt == old(receipt)
      ensures quiet ==> !outcome.Stranded? && worktree == old(worktree) && receipt == old(receipt)
      ensures CommitsKept()
    {
      hide FilesPass, NamesDiffer, Diff;
      Interfere(quiet);
      if request.saveWritable {
        run := run.(status := RunState.Applied, appliedCommit := sha);
        return Outcome.Applied(sha);
      }
      Interfere(quiet);
      if head != sha {
        return Stranded(sha);
      }
      head := base;
      outcome := RolledBack;
    }

    method CommitAndSave(tree: Tree, request: Request, crashes: bool, quiet: bool) returns (outcome: Outcome)
      requires Valid() && run.status == Reviewed
      requires digest(Diff(BaseTree(), tree)) == run.reviewedDigest
      requires digest(passed) == run.reviewedDigest && FilesPass(passed, allowed, forbidden, passedProtected)
      modifies this`head, this`commits, this`worktree, this`receipt, this`run
      ensures Valid()
      ensures run == if outcome.Applied? then old(run).(status := RunState.Applied, appliedCommit := outcome.commit) else old(run)
      ensures outcome.RolledBack? ==> head == base
      ensures quiet && old(head) == base ==>
        if crashes then outcome.Crashed? else if request.saveWritable then outcome.Applied? else outcome.RolledBack?
      ensures outcome.Crashed? ==> crashes
      ensures !request.saveWritable ==> !outcome.Applied?
      ensures outcome != Blocked && CommitsKept()
      ensures old(receipt).Some? ==> receipt == old(receipt)
      ensures quiet ==> worktree == old(worktree) && receipt == old(receipt)
      ensures quiet && outcome.Failed? ==> head == old(head)
      ensures outcome.Crashed? && quiet ==> head != base && head in commits && commits[head] == Commit(base, tree)
    {
      hide FilesPass, NamesDiffer, Diff, AppliedOk, ReviewOk;
      var ok, sha := CommitTree(tree, quiet);
      if !ok {
        return Failed;
      }
      if crashes {
        return Crashed;
      }
      outcome := SaveOrRollBack(sha, request, quiet);
    }

    predicate PolicyOpen(request: Request)
      reads this
    {
      request.policyPresent ==> !receiptUsed && ReceiptAllows(request)
    }

    method SpendAndCommit(tree: Tree, request: Request, crashes: bool, quiet: bool) returns (outcome: Outcome)
      requires Valid() && run.status == Reviewed
      requires digest(Diff(BaseTree(), tree)) == run.reviewedDigest
      requires digest(passed) == run.reviewedDigest && FilesPass(passed, allowed, forbidden, passedProtected)
      modifies this`head, this`commits, this`worktree, this`receipt, this`run, this`receiptUsed
      ensures Valid()
      ensures run == if outcome.Applied? then old(run).(status := RunState.Applied, appliedCommit := outcome.commit) else old(run)
      ensures outcome.RolledBack? ==> head == base
      ensures receiptUsed <==> old(receiptUsed) || (request.policyPresent && old(ReceiptAccepted(request)))
      ensures !old(PolicyOpen(request)) ==> outcome == Blocked || outcome == Failed
      ensures outcome == Blocked <==> !old(PolicyOpen(request)) && request.keyReadable && request.auditWritable
      ensures !request.saveWritable ==> !outcome.Applied?
      ensures outcome.Crashed? ==> crashes && old(PolicyOpen(request))
      ensures CommitsKept()
      ensures quiet ==> worktree == old(worktree) && receipt == old(receipt)
      ensures quiet && (outcome.Blocked? || outcome.Failed?) ==> head == old(head)
      ensures outcome.Crashed? && quiet ==> head != base && head in commits && commits[head] == Commit(base, tree)
      ensures request.policyPresent && (outcome.Applied? || outcome.RolledBack? || outcome.Stranded? || outcome.Crashed?) ==>
        Approves(receipt, old(run).reviewedDigest, request.now) && request.policyAllows
      ensures quiet && old(PolicyOpen(request)) && old(head) == base ==>
        if crashes then outcome.Crashed? else if request.saveWritable then outcome.Applied? else outcome.RolledBack?
    {
      hide FilesPass, NamesDiffer, ReceiptValid, Approves, Diff, AppliedOk, ReviewOk;
      if request.policyPresent {
        var ok := ConsumeReceipt(request);
        if ok {
          AllowsApproved(request);
        }
        if !ok {
          return if request.keyReadable && request.auditWritable then Blocked else Failed;
        }
      }
      outcome := CommitAndSave(tree, request, crashes, quiet);
    }

    // Apply behind its first checks: verification, the pinned tree, the receipt and the commit.
    method ApplyChecked(request: Request, crash: nat, quiet: bool) returns (outcome: Outcome)
      requires Valid() && run.status == Reviewed && crash > 0
      requires digest(passed) == run.reviewedDigest && FilesPass(passed, allowed, forbidden, passedProtected)
      modifies this`head, this`commits, this`worktree, this`receipt, this`run, this`receiptUsed
      ensures Valid() && CommitsKept()
      ensures run == if outcome.Applied? then old(run).(status := RunState.Applied, appliedCommit := outcome.commit) else old(run)
      ensures outcome.RolledBack? ==> head == base
      ensures request.policyPresent && (outcome.Applied? || outcome.RolledBack? || outcome.Stranded?) ==>
        !old(receiptUsed) && receiptUsed
      ensures request.policyPresent && old(receiptUsed) ==> outcome == Blocked || outcome == Failed || outcome == Crashed
      ensures old(receiptUsed) ==> receiptUsed
      ensures !request.policyPresent ==> receiptUsed == old(receiptUsed)
      ensures !request.saveWritable ==> !outcome.Applied?
      ensures outcome.Crashed? ==> crash < 3
      ensures request.policyPresent && Commits(outcome, crash) ==>
        Approves(receipt, old(run).reviewedDigest, request.now) && request.policyAllows
      ensures quiet ==> worktree == old(worktree) && receipt == old(receipt)
      ensures quiet && (outcome.Blocked? || outcome.Failed? || (outcome.Crashed? && crash < 2)) ==> head == old(head)
      ensures quiet && outcome.Crashed? && crash == 2 ==> head != base && head in commits && commits[head].parent == base
      ensures quiet && digest(Diff(old(BaseTree()), old(worktree))) == old(run).reviewedDigest ==>
        if !request.verified || old(head) != base then
          outcome == Blocked || (outcome == Failed && !request.verified)
        else if crash == 1 then outcome.Crashed?
        else if !old(PolicyOpen(request)) then outcome == Blocked || outcome == Failed
        else if crash == 2 then outcome.Crashed? && head in commits && commits[head] == Commit(base, old(worktree))
        else if request.saveWritable then outcome.Applied?
        else outcome.RolledBack?
    {
      hide FilesPass, NamesDiffer, ReceiptValid, Approves, Diff, AppliedOk, ReviewOk;
      var ok, tree := VerifyAndPin(request, quiet);
      if !ok {
        if !request.verified && request.policyPresent && !request.auditWritable {
          return Failed;
        }
        return Blocked;
      }
      if crash == 1 {
        return Crashed;
      }
      outcome := SpendAndCommit(tree, request, crash == 2, quiet);
    }

    // jacu_apply up to the persisted result. The process may die after the checks (crash 0), after
    // verification (1) or between commit and save (2).
    method Apply(request: Request, crash: nat, quiet: bool) returns (outcome: Outcome)
      requires Valid()
      modifies this
      ensures Valid()
      // The record only ever moves from reviewed to applied here.
      ensures outcome.Applied? ==> old(run).status == Reviewed
      ensures outcome.Applied? ==> run == old(run).(status := RunState.Applied, appliedCommit := outcome.commit)
      ensures !outcome.Applied? ==> run == old(run)
      // A failed save whose rollback succeeds leaves the head at the base.
      ensures outcome.RolledBack? ==> head == base && run.status == Reviewed
      // Under a policy every commit spends the receipt, and a spent receipt ends all applying.
      ensures request.policyPresent && (outcome.Applied? || outcome.RolledBack? || outcome.Stranded?) ==>
        !old(receiptUsed) && receiptUsed
      ensures request.policyPresent && old(receiptUsed) ==> outcome == Blocked || outcome == Failed || outcome == Crashed
      ensures old(receiptUsed) ==> receiptUsed
      ensures !request.policyPresent ==> receiptUsed == old(receiptUsed)
      // And nothing is committed without a receipt that approves what was reviewed.
      ensures request.policyPresent && Commits(outcome, crash) ==>
        Approves(receipt, old(run).reviewedDigest, request.now) && request.policyAllows
      ensures (
          && quiet && request.policyPresent
          && (!Approves(old(receipt), old(run).reviewedDigest, request.now) || !request.policyAllows)) ==>
        head == old(head) && run == old(run) && (outcome.Blocked? || outcome.Failed? || outcome.Crashed?)
      // Undisturbed, apply succeeds exactly when every gate is open; a head off the base is one shut.
      ensures quiet && outcome.Applied? ==> old(GatesOpen(request)) && request.saveWritable
      ensures quiet && old(GatesOpen(request)) ==>
        if crash < 3 then outcome.Crashed? else if request.saveWritable then outcome.Applied? else outcome.RolledBack?
      ensures quiet && !old(GatesOpen(request)) ==> outcome == Blocked || outcome == Failed || outcome == Crashed
      ensures outcome.Crashed? ==> crash < 3
      // Undisturbed, only a commit moves the head; a crash behind it leaves the new commit there.
      ensures CommitsKept()
      ensures quiet ==> worktree == old(worktree) && receipt == old(receipt)
      ensures quiet && (outcome.Blocked? || outcome.Failed? || (outcome.Crashed? && crash < 2)) ==> head == old(head)
      ensures quiet && outcome.Crashed? && crash == 2 ==>
        head != base && head in commits && commits[head] == Commit(base, old(worktree))
      // What a snapshot that passes or a head off the base come to.
      ensures (
          && quiet && crash >= 3 && request.identityOk && old(run).status == Reviewed
          && old(SnapshotPasses(request)) && request.verified && old(head) != base) ==> outcome.Blocked?
    {
      hide FilesPass, NamesDiffer, ReceiptValid, Approves, Diff, AppliedOk, ReviewOk;
      if !request.identityOk || run.status != Reviewed {
        return Blocked;
      }
      var ok := CheckSnapshot(request, quiet);
      if !ok {
        return Blocked;
      }
      if crash == 0 {
        return Crashed;
      }
      outcome := ApplyChecked(request, crash, quiet);
    }

    predicate GatesOpen(request: Request)
      reads this
      requires base in commits
    {
      && request.identityOk && run.status == Reviewed
      && SnapshotPasses(request)
      && request.verified && head == base
      && PolicyOpen(request)
    }
  }

  // With collision-free digests a valid applied run committed exactly the reviewed tree, and every
  // file its commit changes passed the scope and protected-path checks.
  lemma AppliedIsReviewed(repo: Repo)
    requires repo.Valid() && repo.run.status == RunState.Applied
    requires forall p, q :: repo.digest(p) == repo.digest(q) ==> p == q
    ensures repo.commits[repo.run.appliedCommit].tree == repo.reviewedTree
    ensures forall p :: p in Diff(repo.BaseTree(), repo.commits[repo.run.appliedCommit].tree) ==>
      && Scope.MatchesAny(p, repo.allowed)
      && !Scope.MatchesAny(p, repo.forbidden)
      && !Scope.MatchesAny(p, repo.passedProtected)
  {
    var tree := repo.commits[repo.run.appliedCommit].tree;
    assert Diff(repo.BaseTree(), tree) == Diff(repo.BaseTree(), repo.reviewedTree);
    SamePatchSameTree(repo.BaseTree(), tree, repo.reviewedTree);
  }

  // Every gate, in the fields of the request, the record and the receipt.
  lemma GatesMean(repo: Repo, request: Request)
    requires repo.base in repo.commits
    ensures repo.GatesOpen(request) <==>
      && request.identityOk && repo.run.status == Reviewed
      && repo.digest(Diff(repo.BaseTree(), repo.worktree)) == repo.run.reviewedDigest
      && request.integrityOk && request.protectedReadable && request.destructiveApproved && request.policyReadable
      && (forall p :: p in Diff(repo.BaseTree(), repo.worktree) ==>
            && Scope.MatchesAny(p, repo.allowed)
            && !Scope.MatchesAny(p, repo.forbidden)
            && !Scope.MatchesAny(p, request.protected))
      && request.verified && repo.head == repo.base
      && (request.policyPresent ==>
            && !repo.receiptUsed && request.keyReadable && request.markerWritable && request.policyAllows
            && Approves(repo.receipt, repo.run.reviewedDigest, request.now))
  {
    repo.AllowsApproved(request);
    hide Diff, Scope.MatchesAny, Approves;
  }

  // What a receipt must be to be spent on the run, whatever its verdict.
  lemma AcceptedMeans(repo: Repo, request: Request)
    ensures repo.ReceiptAccepted(request) <==>
      && request.keyReadable && request.markerWritable && repo.receipt.Some?
      && (var r := repo.receipt.value;
          && r.verdict in {"approve", "reject", "escalate"} && r.digest == repo.run.reviewedDigest
          && r.sameRun && r.signed && -300 <= request.now - r.createdAt <= 86400)
  {
  }

  // A failed save is answered with "retry Apply". Under a policy the retry cannot succeed: the
  // receipt was spent by the first attempt and is never good again. Undisturbed, the same request
  // with the record writable again succeeds exactly where no policy asks for a receipt.
  method RetryAfterRollback(repo: Repo, request: Request, retry: Request, crash: nat, again: nat, quiet: bool)
    returns (first: Outcome, second: Outcome)
    requires repo.Valid()
    modifies repo
    ensures repo.Valid()
    ensures quiet ==> (first.RolledBack? <==> crash >= 3 && old(repo.GatesOpen(request)) && !request.saveWritable)
    ensures first.RolledBack? && request.policyPresent && retry.policyPresent ==>
      !second.Applied? && repo.run.status == Reviewed
    ensures quiet && again >= 3 && retry == request.(saveWritable := true) && first.RolledBack? ==>
      (second.Applied? <==> !request.policyPresent)
  {
    first := repo.Apply(request, crash, quiet);
    second := repo.Apply(retry, again, quiet);
  }

  // After a crash between commit and save the head is the new commit while the record still says
  // reviewed, and the same request is blocked until the head is back at the base.
  method ApplyAfterCrash(repo: Repo, request: Request) returns (first: Outcome, second: Outcome)
    requires repo.Valid() && repo.GatesOpen(request)
    modifies repo
    ensures repo.Valid() && first.Crashed? && second.Blocked?
    ensures repo.run == old(repo.run) && repo.head != repo.base && repo.head in repo.commits
    ensures repo.commits[repo.head] == Commit(repo.base, old(repo.worktree))
  {
    first := repo.Apply(request, 2, true);
    second := repo.Apply(request, 3, true);
  }

  // ---- the same from a new run on ----

  // What a request itself must bring for every gate to open.
  predicate Admissible(request: Request) {
    && request.identityOk && request.integrityOk && request.destructiveApproved
    && request.protectedReadable && request.policyReadable && request.verified
    && (request.policyPresent ==> request.policyAllows && request.keyReadable && request.markerWritable)
  }

  // A new run whose worktree was edited, reviewed and, for the policy, approved.
  method ReviewedRun(
    commit: Commit, edited: Tree, allowed: seq<string>, forbidden: seq<string>, digest: Patch -> string,
    name: Commit -> Sha, request: Request) returns (repo: Repo)
    requires NamesDiffer(name) && Admissible(request)
    requires FilesPass(Diff(commit.tree, edited), allowed, forbidden, request.protected)
    ensures fresh(repo) && repo.Valid() && repo.GatesOpen(request) && repo.worktree == edited
    ensures repo.base == name(commit) && repo.BaseTree() == commit.tree
  {
    hide FilesPass, NamesDiffer, Diff;
    repo := new Repo(commit, allowed, forbidden, digest, name);
    repo.worktree := edited;
    var reviewed := repo.Review(true, true, false, true);
    repo.receipt := Some(Receipt(true, repo.run.reviewedDigest, "approve", request.now, true));
  }

  // The first save fails and is rolled back; the retry applies without a policy and not under one.
  method RollbackThenRetry(
    commit: Commit, edited: Tree, allowed: seq<string>, forbidden: seq<string>, digest: Patch -> string,
    name: Commit -> Sha, request: Request) returns (first: Outcome, second: Outcome)
    requires NamesDiffer(name) && Admissible(request) && !request.saveWritable
    requires FilesPass(Diff(commit.tree, edited), allowed, forbidden, request.protected)
    ensures first.RolledBack? && (second.Applied? <==> !request.policyPresent)
  {
    hide FilesPass, NamesDiffer, Diff;
    var repo := ReviewedRun(commit, edited, allowed, forbidden, digest, name, request);
    first, second := RetryAfterRollback(repo, request, request.(saveWritable := true), 3, 3, true);
  }

  // The process dies between commit and save; the head holds the edited tree and apply is blocked.
  method CrashThenBlocked(
    commit: Commit, edited: Tree, allowed: seq<string>, forbidden: seq<string>, digest: Patch -> string,
    name: Commit -> Sha, request: Request) returns (repo: Repo, first: Outcome, second: Outcome)
    requires NamesDiffer(name) && Admissible(request)
    requires FilesPass(Diff(commit.tree, edited), allowed, forbidden, request.protected)
    ensures repo.Valid() && first.Crashed? && second.Blocked? && repo.run.status == Reviewed
    ensures repo.head in repo.commits && repo.commits[repo.head] == Commit(name(commit), edited)
  {
    hide FilesPass, NamesDiffer, Diff;
    repo := ReviewedRun(commit, edited, allowed, forbidden, digest, name, request);
    first, second := ApplyAfterCrash(repo, request);
  }

  // ---- whole runs ----

  datatype Operation =
    | Diffs(identityOk: bool, writable: bool, crashes: bool, quiet: bool)
    | Applies(request: Request, crash: nat, quiet: bool)
    | Corrupts

  // Any sequence of reviews, applies and corruptions, with whatever interferes, keeps the invariant:
  // from a new run on, an applied record always names a reviewed commit on its base.
  method Operate(repo: Repo, operations: seq<Operation>)
    requires repo.Valid()
    modifies repo
    ensures repo.Valid() && repo.CommitsKept()
  {
    for i := 0 to |operations|
      invariant repo.Valid() && repo.CommitsKept()
    {
      match operations[i]
      case Diffs(identityOk, writable, crashes, quiet) =>
        var reviewed := repo.Review(identityOk, writable, crashes, quiet);
      case Applies(request, crash, quiet) =>
        var applied := repo.Apply(request, crash, quiet);
      case Corrupts =>
        repo.Corrupt();
    }
  }

  method OperateNew(
    commit: Commit, allowed: seq<string>, forbidden: seq<string>, digest: Patch -> string, name: Commit -> Sha,
    operations: seq<Operation>) returns (repo: Repo)
    requires NamesDiffer(name)
    ensures repo.Valid() && repo.base == name(commit) && repo.BaseTree() == commit.tree
  {
    repo := new Repo(commit, allowed, forbidden, digest, name);
    Operate(repo, operations);
  }
}
