/**
 * Turning an approved run into a pull request, and what holds over every sequence of
 * attempts, failures, retries and outside interference.
 */
module PullRequests {
  import opened Text
  import opened Git
  import opened ReviewedPush

  datatype RunStatus = NeedsReview | Approved | OtherStatus

  /** The run's `pull_requests` row. */
  datatype PrRow = NoRow | FailedRow | CreatedRow(number: nat, branch: string)

  datatype Publish = Published(number: nat) | PublishFailed

  datatype PrError = NotEligible | PushRefused(refusal: Refusal) | PublisherFailed | RecordFailed

  datatype PrResult = PrResult(number: nat, head: string, tip: Option<Commit>)

  datatype Desk = Desk(repo: Repo, status: RunStatus, row: PrRow, recorded: Option<nat>)

  /** What is fixed for a run when it is reviewed; attempts vary only in message, stamp and pathspec rules. */
  datatype RunRecord = RunRecord(branch: string, base: Commit, reviewed: seq<Path>, fingerprint: Fingerprint)

  /** An attempt on this run, by a `git add` that follows git's rule. */
  ghost predicate Fits(req: Request, run: RunRecord) {
    && req.branch == run.branch && req.base == run.base
    && req.reviewed == run.reviewed && req.fingerprint == run.fingerprint
    && PlainPicksItself(req.selects)
  }

  /** The deterministic commit message: the title unless it is missing or blank. */
  function CommitMessage(title: Option<string>, runId: string): (m: string)
    ensures !IsBlank(m)
    ensures title.Some? && !IsBlank(title.value) ==> m == title.value
    ensures title.None? || IsBlank(title.value) ==> m == "harness: " + runId
  {
    if title.Some? && !IsBlank(title.value) then title.value
    else
      var m := "harness: " + runId;
      assert m[0] == 'h';
      m
  }

  /** One `pr create` (or escalation push) as seen from outside. */
  ghost predicate DeskAttempt(s: Desk, req: Request, s': Desk) {
    && s'.status == s.status
    && (|| (s' == s)
        || (&& (s.row.CreatedRow? ==> s'.row == s.row && s'.recorded == s.recorded)
            && (exists r :: Attempted(s.repo, req, s'.repo, r))
            && (s'.row == s.row || s'.row == FailedRow || RowCreated(s, req, s'))
            && (s'.recorded == s.recorded || RowCreated(s, req, s'))))
  }

  /** A created row is only ever written after this attempt's own push, together with the run row. */
  ghost predicate RowCreated(s: Desk, req: Request, s': Desk) {
    && s'.row.CreatedRow? && s'.row.branch == req.branch
    && s'.recorded == Some(s'.row.number)
    && Sent(s.repo, req, s'.repo)
  }

  class PrDesk {
    const work: RunWorktree
    var status: RunStatus
    var row: PrRow
    var recorded: Option<nat>

    constructor (work: RunWorktree, status: RunStatus)
      ensures this.work == work && this.status == status && row == NoRow && recorded == None
    {
      this.work, this.status, this.row, this.recorded := work, status, NoRow, None;
    }

    ghost function State(): Desk
      reads this, work
    {
      Desk(work.repo, status, row, recorded)
    }

    /** Idempotent creation: a recorded pull request is returned as it stands. */
    method CreatePullRequest(req: Request, faults: Faults, publish: Publish, recordWorks: bool)
      returns (r: Result<PrResult, PrError>)
      requires WellFormed(work.repo)
      modifies this, work
      ensures WellFormed(work.repo)
      ensures DeskAttempt(old(State()), req, State())
      ensures old(row).CreatedRow? ==>
        && State() == old(State())
        && r == Ok(PrResult(row.number, row.branch, Lookup(work.repo.branches, row.branch)))
      ensures !old(row).CreatedRow? && r.Ok? ==>
        && old(status) == Approved
        && RowCreated(old(State()), req, State())
        && r.value == PrResult(row.number, req.branch, Some(work.repo.branches[req.branch]))
      ensures !old(row).CreatedRow? && faults == map[] && publish.Published? && recordWorks ==>
        (r.Ok? <==> old(status) == Approved && Accepts(old(work.repo), req))
    {
      if row.CreatedRow? {
        return Ok(PrResult(row.number, row.branch, Lookup(work.repo.branches, row.branch)));
      }
      if status != Approved {
        return Err(NotEligible);
      }
      var pushed := work.CommitAndPush(req, faults);
      if pushed.Err? {
        return Err(PushRefused(pushed.error));
      }
      match publish
      case PublishFailed =>
        row := FailedRow;
        return Err(PublisherFailed);
      case Published(number) =>
        if !recordWorks {
          return Err(RecordFailed);
        }
        recorded, row := Some(number), CreatedRow(number, req.branch);
        return Ok(PrResult(number, req.branch, Some(pushed.value.tip)));
    }

    /** The escalation path pushes the branch of a run that still needs review and records no pull request. */
    method PushForEscalation(req: Request, faults: Faults) returns (r: Result<Pushed, PrError>)
      requires WellFormed(work.repo)
      modifies work
      ensures WellFormed(work.repo)
      ensures DeskAttempt(old(State()), req, State())
      ensures faults == map[] ==> (r.Ok? <==> status == NeedsReview && Accepts(old(work.repo), req))
    {
      if status != NeedsReview {
        return Err(NotEligible);
      }
      var pushed := work.CommitAndPush(req, faults);
      match pushed
      case Ok(p) => r := Ok(p);
      case Err(e) => r := Err(PushRefused(e));
    }
  }

  const SALVAGE := "harness salvage: "

  /** The message the escalation path commits with. */
  function SalvageMessage(runId: string): string {
    SALVAGE + runId
  }

  // ----- every run of attempts and interference -----

  /** Between attempts anyone may edit files, stage, check out, graft, re-review; only the run branch
      itself, what was sent to origin and the pull-request record are the harness's alone. */
  ghost predicate Interference(s: Desk, s': Desk, run: RunRecord) {
    && Lookup(s'.repo.branches, run.branch) == Lookup(s.repo.branches, run.branch)
    && s'.repo.pushes == s.repo.pushes
    && s'.row == s.row && s'.recorded == s.recorded
  }

  ghost predicate Next(s: Desk, s': Desk, run: RunRecord) {
    || Interference(s, s', run)
    || exists req :: Fits(req, run) && DeskAttempt(s, req, s')
  }

  ghost predicate IsTrace(trace: seq<Desk>, run: RunRecord) {
    && |trace| > 0
    && Lookup(trace[0].repo.branches, run.branch) == Some(run.base)
    && trace[0].repo.pushes == [] && trace[0].row == NoRow
    && forall i :: 0 <= i < |trace| - 1 ==> Next(trace[i], trace[i + 1], run)
  }

  // ----- whatever the state -----

  ghost predicate ChangesReviewedOnly(c: Commit, run: RunRecord) {
    Diff(run.base.tree, c.tree) <= SetOf(run.reviewed)
  }

  /** The branch is at base or at a commit built on it, and changes reviewed paths only; nothing but those two
      was ever sent, and only while at most one commit beyond base; a created row was preceded by a push. */
  ghost predicate Bounded(s: Desk, run: RunRecord) {
    && run.branch in s.repo.branches
    && var tip := s.repo.branches[run.branch];
    && run.base in Reach(tip) && ChangesReviewedOnly(tip, run)
    && (forall p :: p in s.repo.pushes ==>
          (p == Push(run.branch, run.base) || p == Push(run.branch, tip)) && Beyond(run.base, p.tip) <= 1)
    && (s.row.CreatedRow? ==> s.repo.pushes != [] && s.row.branch == run.branch && s.recorded == Some(s.row.number))
  }

  lemma AttemptKeepsBounded(s: Desk, req: Request, s': Desk, run: RunRecord)
    requires Bounded(s, run) && Fits(req, run) && DeskAttempt(s, req, s')
    ensures Bounded(s', run)
    ensures s.repo.branches[run.branch] != run.base ==> s'.repo.branches[run.branch] == s.repo.branches[run.branch]
  {
    if s' != s {
      var r :| Attempted(s.repo, req, s'.repo, r);
      if s'.repo.branches != s.repo.branches { MintedIsBounded(s.repo, req, s'.repo); }
    }
  }

  lemma MintedIsBounded(s: Repo, req: Request, s': Repo)
    requires Minted(s, req, s')
    ensures req.base in Reach(s'.branches[req.branch])
    ensures Diff(req.base.tree, s'.branches[req.branch].tree) <= SetOf(req.reviewed)
  {
    MintedBeyond(req.base, s.merge, s'.branches[req.branch]);
    assert req.fingerprint.Keys == SetOf(req.reviewed);
    StagedDiff(s'.branches[req.branch].tree, s, req);
  }

  lemma StepKeepsBounded(s: Desk, s': Desk, run: RunRecord)
    requires Bounded(s, run) && Next(s, s', run)
    ensures Bounded(s', run)
    ensures s.repo.branches[run.branch] != run.base ==> s'.repo.branches[run.branch] == s.repo.branches[run.branch]
  {
    if !Interference(s, s', run) {
      var req :| Fits(req, run) && DeskAttempt(s, req, s');
      AttemptKeepsBounded(s, req, s', run);
    }
  }

  /** Over every run, whatever its paths are called and whatever git is in the middle of: the branch leaves
      base at most once, nothing is ever sent but base or that one commit, never more than one commit beyond
      base, and it changes reviewed paths only. */
  lemma {:induction false} EveryRunIsBounded(trace: seq<Desk>, run: RunRecord, i: nat)
    requires IsTrace(trace, run) && i < |trace|
    ensures Bounded(trace[i], run)
    decreases i
  {
    if i > 0 {
      EveryRunIsBounded(trace, run, i - 1);
      StepKeepsBounded(trace[i - 1], trace[i], run);
    } else {
      assert Diff(run.base.tree, run.base.tree) == {};
    }
  }

  /** Once the reviewed commit exists it is never replaced or built upon. */
  lemma {:induction false} ReviewedCommitIsFinal(trace: seq<Desk>, run: RunRecord, i: nat, j: nat)
    requires IsTrace(trace, run) && i <= j < |trace|
    requires Lookup(trace[i].repo.branches, run.branch) != Some(run.base)
    ensures Lookup(trace[j].repo.branches, run.branch) == Lookup(trace[i].repo.branches, run.branch)
    decreases j
  {
    if i < j {
      ReviewedCommitIsFinal(trace, run, i, j - 1);
      StepKeepsReviewedCommit(trace, run, j - 1);
    }
  }

  lemma StepKeepsReviewedCommit(trace: seq<Desk>, run: RunRecord, k: nat)
    requires IsTrace(trace, run) && k + 1 < |trace|
    requires Lookup(trace[k].repo.branches, run.branch) != Some(run.base)
    ensures Lookup(trace[k + 1].repo.branches, run.branch) == Lookup(trace[k].repo.branches, run.branch)
  {
    EveryRunIsBounded(trace, run, k);
    StepKeepsBounded(trace[k], trace[k + 1], run);
  }

  // ----- one commit beyond base -----

  /** The commit an attempt makes is the only one beyond base if and only if no unfinished merge brings in
      anything new. */
  lemma SecondCommitIffMerging(s: Repo, req: Request, s': Repo)
    requires Minted(s, req, s')
    ensures Beyond(req.base, s'.branches[req.branch]) == 1 <==> MergesNothingNew(req.base, s.merge)
  {
    MintedBeyond(req.base, s.merge, s'.branches[req.branch]);
  }

  ghost predicate AtMostOne(s: Desk, run: RunRecord) {
    run.branch in s.repo.branches && Beyond(run.base, s.repo.branches[run.branch]) <= 1
  }

  /** No attempt starts while a merge that brings in something new is unfinished. */
  ghost predicate AttemptsMergeNothing(trace: seq<Desk>, run: RunRecord) {
    forall i :: 0 <= i < |trace| - 1 && !Interference(trace[i], trace[i + 1], run) ==> MergesNothingNew(run.base, trace[i].repo.merge)
  }

  lemma StepKeepsAtMostOne(s: Desk, s': Desk, run: RunRecord)
    requires AtMostOne(s, run) && Next(s, s', run)
    requires Interference(s, s', run) || MergesNothingNew(run.base, s.repo.merge)
    ensures AtMostOne(s', run)
  {
    if !Interference(s, s', run) {
      var req :| Fits(req, run) && DeskAttempt(s, req, s');
      if s' != s {
        var r :| Attempted(s.repo, req, s'.repo, r);
        if s'.repo.branches != s.repo.branches { SecondCommitIffMerging(s.repo, req, s'.repo); }
      }
    }
  }

  /** Then there is never a second commit beyond base. */
  lemma {:induction false} EveryRunHasOneCommit(trace: seq<Desk>, run: RunRecord, i: nat)
    requires IsTrace(trace, run) && AttemptsMergeNothing(trace, run) && i < |trace|
    ensures AtMostOne(trace[i], run)
    decreases i
  {
    if i > 0 {
      EveryRunHasOneCommit(trace, run, i - 1);
      StepKeepsAtMostOne(trace[i - 1], trace[i], run);
    } else {
      assert Reach(run.base) - Reach(run.base) == {};
    }
  }

  /** And if there is one, the run is stuck: no later attempt is accepted, whatever it asks. */
  lemma MergedRunIsStuck(trace: seq<Desk>, run: RunRecord, i: nat, j: nat, req: Request)
    requires IsTrace(trace, run) && i <= j < |trace| && Fits(req, run)
    requires run.branch in trace[i].repo.branches && Beyond(run.base, trace[i].repo.branches[run.branch]) > 1
    ensures !Accepts(trace[j].repo, req)
  {
    assert Reach(run.base) - Reach(run.base) == {};
    ReviewedCommitIsFinal(trace, run, i, j);
  }

  // ----- the approved tree -----

  ghost predicate CarriesApprovedTree(c: Commit, run: RunRecord) {
    forall p :: Lookup(c.tree, p) == ApprovedBlob(run.base.tree, run.fingerprint, p)
  }

  /** The branch is at base or at a commit of the approved tree; everything sent is that very tip, carrying
      the approved tree. */
  ghost predicate Safe(s: Desk, run: RunRecord) {
    && run.branch in s.repo.branches
    && var tip := s.repo.branches[run.branch];
    && (tip == run.base || (CarriesApprovedTree(tip, run) && tip.tree != run.base.tree))
    && (forall p :: p in s.repo.pushes ==> p == Push(run.branch, tip) && CarriesApprovedTree(tip, run))
  }

  lemma ApprovedTreesAgree(a: Commit, b: Commit, run: RunRecord)
    requires CarriesApprovedTree(a, run) && CarriesApprovedTree(b, run)
    ensures a.tree == b.tree
  {
    forall p ensures p !in Diff(a.tree, b.tree) {
      assert Lookup(a.tree, p) == ApprovedBlob(run.base.tree, run.fingerprint, p);
      assert Lookup(b.tree, p) == ApprovedBlob(run.base.tree, run.fingerprint, p);
    }
    NoDiffMeansEqual(a.tree, b.tree);
  }

  lemma PlainStagedIsApproved(c: Commit, s: Repo, req: Request, run: RunRecord)
    requires Fits(req, run) && NothingStrays(s, run.reviewed) && IsStagedTree(c.tree, s, req)
    ensures CarriesApprovedTree(c, run)
  {
    PlainPathsDoNotStray(s, req, c.tree);
  }

  lemma AttemptKeepsSafe(s: Desk, req: Request, s': Desk, run: RunRecord)
    requires Safe(s, run) && NothingStrays(s.repo, run.reviewed) && Fits(req, run) && DeskAttempt(s, req, s')
    ensures Safe(s', run)
  {
    if s' != s {
      var r :| Attempted(s.repo, req, s'.repo, r);
      var tip := s'.repo.branches[run.branch];
      if s'.repo.branches != s.repo.branches {
        assert Minted(s.repo, req, s'.repo);
        PlainStagedIsApproved(tip, s.repo, req, run);
        if s.repo.pushes != [] {
          assert s.repo.pushes[0] in s.repo.pushes;
          ApprovedTreesAgree(run.base, tip, run);
        }
      }
      if Sent(s.repo, req, s'.repo) {
        PlainStagedIsApproved(tip, s.repo, req, run);
      }
    }
  }

  lemma StepKeepsSafe(s: Desk, s': Desk, run: RunRecord)
    requires Safe(s, run) && Next(s, s', run)
    requires Interference(s, s', run) || NothingStrays(s.repo, run.reviewed)
    ensures Safe(s', run)
  {
    if !Interference(s, s', run) {
      var req :| Fits(req, run) && DeskAttempt(s, req, s');
      AttemptKeepsSafe(s, req, s', run);
    }
  }

  /** No attempt starts with a reviewed path that is read as magic or flagged in the index. */
  ghost predicate AttemptsStartClean(trace: seq<Desk>, run: RunRecord) {
    forall i :: 0 <= i < |trace| - 1 && !Interference(trace[i], trace[i + 1], run) ==> NothingStrays(trace[i].repo, run.reviewed)
  }

  /** Then whatever is sent to origin over the whole run, however often, is one and the same commit, whose
      tree is base overridden by the approved content. */
  lemma {:induction false} EveryRunIsSafe(trace: seq<Desk>, run: RunRecord, i: nat)
    requires IsTrace(trace, run) && AttemptsStartClean(trace, run) && i < |trace|
    ensures Safe(trace[i], run)
    decreases i
  {
    if i > 0 {
      EveryRunIsSafe(trace, run, i - 1);
      StepKeepsSafe(trace[i - 1], trace[i], run);
    }
  }

  // ----- when a retry gets through -----

  /** The same run, perhaps with another message. */
  ghost predicate SameRun(a: Request, b: Request) {
    && a.branch == b.branch && a.base == b.base && a.reviewed == b.reviewed
    && a.fingerprint == b.fingerprint && a.selects == b.selects
  }

  /** After an attempt that committed but did not get its push through, a later one, from either entry
      point, succeeds exactly when it expects the message that was committed, the commit is the only one
      beyond base, `git add` still finds everything it is given, and no tracked file looks modified. */
  lemma RetryAfterCommit(s: Repo, req: Request, s': Repo, r: Result<Pushed, Refusal>, again: Request)
    requires Attempted(s, req, s', r) && s'.branches != s.branches && SameRun(req, again)
    ensures Accepts(s', again) <==>
      && StripNewlines(again.message) == StripNewlines(req.message)
      && MergesNothingNew(req.base, s.merge)
      && !again.selects.misses(again.reviewed, Names(s'.index, s'.flags, s'.worktree))
      && LooksClean(Dirty(s'.worktree, s'.index, s'.flags, s'.index))
  {
    var tip := s'.branches[req.branch];
    ReviewedCommitMayBePushed(tip, s, req);
    StoredStripsBack(req.message);
    MintedBeyond(req.base, s.merge, tip);
    AddedTwice(s.index, s.flags, s.worktree, req.reviewed, req.selects);
    NoDiffMeansEqual(s'.index, s'.index);
    assert StagedBy(s', again) == {};
    NothingNewIsTaken(s, req, s');
  }

  lemma NothingNewIsTaken(s: Repo, req: Request, s': Repo)
    requires Minted(s, req, s') && s'.worktree == s.worktree && s'.flags == s.flags
    ensures forall q | q in s'.worktree && Takes(s'.index, s'.flags, req.reviewed, req.selects, q) :: !s'.worktree[q].Special?
  {
    forall q | q in s'.worktree && Takes(s'.index, s'.flags, req.reviewed, req.selects, q) ensures !s'.worktree[q].Special? {
      assert Lookup(s'.index, q) ==
        if Takes(s.index, s.flags, req.reviewed, req.selects, q) then BlobAt(s.worktree, q) else Lookup(s.index, q);
    }
  }

  /** Pathspecs that mean exactly the paths they spell. */
  ghost predicate IsLiteral(spec: Pathspec, args: seq<Path>) {
    && (forall q :: spec.picks(args, q) <==> q in args)
    && (forall names :: spec.misses(args, names) <==> exists p :: p in args && p !in names)
  }

  /** For such pathspecs, `git add` finds everything again exactly when no reviewed path is a deletion that
      was staged, and none is an entry outside the sparse checkout. */
  lemma DeletionsAreMissed(s: Repo, req: Request, s': Repo)
    requires Minted(s, req, s') && s'.worktree == s.worktree && s'.flags == s.flags && IsLiteral(req.selects, req.reviewed)
    ensures req.selects.misses(req.reviewed, Names(s'.index, s'.flags, s'.worktree)) <==>
      exists p :: p in req.reviewed &&
        ((p !in s'.worktree && !Held(s'.index, s'.flags, p)) || (p in s'.index && p in s'.flags.sparse))
  {
    forall p | p in req.reviewed
      ensures p !in Names(s'.index, s'.flags, s'.worktree) <==>
        (p !in s'.worktree && !Held(s'.index, s'.flags, p)) || (p in s'.index && p in s'.flags.sparse)
    {
      assert Lookup(s'.index, p) ==
        if Takes(s.index, s.flags, req.reviewed, req.selects, p) then BlobAt(s.worktree, p) else Lookup(s.index, p);
    }
  }

  /** Once a commit exists beyond base, an attempt that expects another message is refused for good:
      after an escalation push, a pull request under its own title never gets through. */
  lemma OtherMessageIsRefusedForGood(trace: seq<Desk>, run: RunRecord, i: nat, j: nat, req: Request)
    requires IsTrace(trace, run) && i <= j < |trace| && Fits(req, run)
    requires run.branch in trace[i].repo.branches && trace[i].repo.branches[run.branch] != run.base
    requires !SameMessage(trace[i].repo.branches[run.branch], req.message)
    ensures !Accepts(trace[j].repo, req)
  {
    ReviewedCommitIsFinal(trace, run, i, j);
  }

  lemma SalvageBlocksPullRequest(trace: seq<Desk>, run: RunRecord, i: nat, j: nat, req: Request, runId: string)
    requires IsTrace(trace, run) && i <= j < |trace| && Fits(req, run)
    requires run.branch in trace[i].repo.branches && trace[i].repo.branches[run.branch] != run.base
    requires trace[i].repo.branches[run.branch].message == Stored(SalvageMessage(runId))
    requires req.message == CommitMessage(None, runId)
    ensures !Accepts(trace[j].repo, req)
  {
    StoredStripsBack(SalvageMessage(runId));
    DefaultsDiffer(runId);
    OtherMessageIsRefusedForGood(trace, run, i, j, req);
  }

  lemma {:induction false} StripKeepsLetter(m: string, k: nat)
    requires k < |m| && m[k] != '\n'
    ensures k < |StripNewlines(m)| && StripNewlines(m)[k] == m[k]
  {
    if m[|m| - 1] == '\n' { StripKeepsLetter(m[..|m| - 1], k); }
  }

  lemma DefaultsDiffer(runId: string)
    ensures StripNewlines(SalvageMessage(runId)) != StripNewlines(CommitMessage(None, runId))
  {
    var a, b := SalvageMessage(runId), CommitMessage(None, runId);
    assert a[7] == ' ' && b[7] == ':';
    StripKeepsLetter(a, 7);
    StripKeepsLetter(b, 7);
  }

  /** A concrete refusal: the run deletes `foo`, the first push fails, and the retry is not accepted. */
  lemma DeletionCannotBeRetried()
    ensures
      var literal := Pathspec((args, q) => q in args, (args, names) => exists p :: p in args && p !in names);
      var req := Request("run", ONE_FILE, ["foo"], map["foo" := None], "harness: run-1", 1, literal);
      var s := At(ONE_FILE, map[], ONE_FILE.tree);
      && Accepts(s, req)
      && forall s', r :: Attempted(s, req, s', r) && s'.branches != s.branches ==> !Accepts(s', req)
  {
    var literal := Pathspec((args, q) => q in args, (args, names) => exists p :: p in args && p !in names);
    var req := Request("run", ONE_FILE, ["foo"], map["foo" := None], "harness: run-1", 1, literal);
    var s := At(ONE_FILE, map[], ONE_FILE.tree);
    assert FingerprintOf(s.worktree, req.reviewed) == req.fingerprint;
    assert Diff(Staged(s, req), ONE_FILE.tree) == {"foo"} by {
      forall q ensures q in Diff(Staged(s, req), ONE_FILE.tree) <==> q == "foo" {
        assert Lookup(Staged(s, req), q) == if q == "foo" then BlobAt(s.worktree, q) else Lookup(s.index, q);
      }
    }
    assert IsLiteral(literal, req.reviewed);
    forall s', r | Attempted(s, req, s', r) && s'.branches != s.branches ensures !Accepts(s', req) {
      StagedDeletionIsRefused(s, req, s', r, "foo");
    }
  }

  /** The same for every run with literal paths that deletes a reviewed path. */
  lemma StagedDeletionIsRefused(s: Repo, req: Request, s': Repo, r: Result<Pushed, Refusal>, p: Path)
    requires Attempted(s, req, s', r) && s'.branches != s.branches && IsLiteral(req.selects, req.reviewed)
    requires p in req.reviewed && p !in s.worktree && !Held(s.index, s.flags, p)
    ensures !Accepts(s', req)
  {
    assert Lookup(s'.index, p) ==
      if Takes(s.index, s.flags, req.reviewed, req.selects, p) then BlobAt(s.worktree, p) else Lookup(s.index, p);
    DeletionsAreMissed(s, req, s');
    RetryAfterCommit(s, req, s', r, req);
  }
}
