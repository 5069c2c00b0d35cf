/**
 * The reviewed-branch push protocol: a run's reviewed files are staged, committed and pushed
 * behind a sequence of gates, and a failed attempt may be retried any number of times.
 */
module ReviewedPush {
  import opened Text
  import opened Git

  /** The recorded classification of each reviewed path (an injective fingerprint keeps it whole). */
  type Fingerprint = map<Path, Option<Node>>

  function FingerprintOf(worktree: map<Path, Node>, reviewed: seq<Path>): Fingerprint {
    map p | p in reviewed :: Lookup(worktree, p)
  }

  datatype Request = Request(
    branch: string,
    base: Commit,
    reviewed: seq<Path>,
    fingerprint: Fingerprint,
    message: string,
    stamp: nat,
    selects: Pathspec
  )

  datatype Step =
    | ReadBranch | ReadGraph | ReadHistory | Add | ReadStaged | MakeCommit
    | CountCommits | ReadMessage | ReadBranchDiff | PushBranch | ReadPushedHead

  /** A command can fail (or time out) before it acted or after. */
  datatype Fault = Before | After

  type Faults = map<Step, Fault>

  datatype Refusal =
    | NothingReviewed | Drifted | WrongBranch | ObjectGraphTampered | UnreviewedHistory
    | UnreviewedPath | SecondCommit | MessageNotAuthentic | GitFailed(step: Step)

  datatype Pushed = Pushed(tip: Commit, committed: bool)

  // ----- what an attempt may do -----

  function ApprovedBlob(base: Tree, fingerprint: Fingerprint, p: Path): Option<Blob> {
    if p in fingerprint then
      (if fingerprint[p].Some? then AsBlob(fingerprint[p].value) else None)
    else Lookup(base, p)
  }

  /** The base tree overridden, on exactly the fingerprinted paths, by the approved content. */
  ghost predicate IsApprovedTree(tree: Tree, req: Request) {
    forall p :: Lookup(tree, p) == ApprovedBlob(req.base.tree, req.fingerprint, p)
  }

  /** A reviewed path that `git add` leaves alone when given it: it stays as the index had it. */
  predicate Strays(s: Repo, req: Request, p: Path) {
    p in req.reviewed && !Takes(s.index, s.flags, req.reviewed, req.selects, p)
  }

  /** Base, overridden on the reviewed paths by the approved content, or by what the index already held
      where a reviewed path strays. */
  ghost predicate IsStagedTree(tree: Tree, s: Repo, req: Request) {
    forall p :: Lookup(tree, p) ==
      if Strays(s, req, p) then Lookup(s.index, p) else ApprovedBlob(req.base.tree, req.fingerprint, p)
  }

  /** What the index holds at every straying path is what the worktree has there. */
  ghost predicate StraysAgree(s: Repo, req: Request) {
    forall p :: Strays(s, req, p) ==> Lookup(s.index, p) == BlobAt(s.worktree, p)
  }

  /** The commit made of what was staged: on base, and on the heads of a merge left unfinished. */
  ghost predicate IsReviewedCommit(c: Commit, s: Repo, req: Request) {
    && c.parents == ParentsOf(req.base, s.merge)
    && IsStagedTree(c.tree, s, req)
    && c.message == Stored(req.message)
  }

  function Staged(s: Repo, req: Request): Tree {
    Added(s.index, s.flags, s.worktree, req.reviewed, req.selects)
  }

  predicate SameMessage(c: Commit, message: string) {
    StripNewlines(c.message) == StripNewlines(message)
  }

  /** The textual emptiness test on `git diff --name-only HEAD`: a listing made of blanks reads as empty. */
  predicate LooksClean(dirty: set<Path>) {
    forall p | p in dirty :: forall i :: 0 <= i < |p| ==> p[i] == ' '
  }

  /** Only the index, the run branch, a pending merge and origin may move, and only in the ways the protocol allows. */
  ghost predicate Attempted(s: Repo, req: Request, s': Repo, r: Result<Pushed, Refusal>) {
    && s' == s.(index := s'.index, merge := s'.merge, branches := s'.branches, pushes := s'.pushes)
    && BranchMove(s, req, s')
    && PushMove(s, req, s', r)
  }

  ghost predicate BranchMove(s: Repo, req: Request, s': Repo) {
    (s'.branches == s.branches && s'.merge == s.merge) || Minted(s, req, s')
  }

  /** The one way the run branch moves: from base to a fresh commit of the staged, changed tree. */
  ghost predicate Minted(s: Repo, req: Request, s': Repo) {
    && MayStage(s, req) && MayCommit(s, req)
    && s.branches[req.branch] == req.base
    && req.branch in s'.branches
    && var tip := s'.branches[req.branch];
    && IsReviewedCommit(tip, s, req)
    && tip.tree == s'.index == Staged(s, req)
    && s'.merge == NO_MERGE
    && tip.tree != req.base.tree
    && s'.branches == s.branches[req.branch := tip]
  }

  ghost predicate PushMove(s: Repo, req: Request, s': Repo, r: Result<Pushed, Refusal>) {
    && (s'.pushes == s.pushes || Sent(s, req, s'))
    && (r.Ok? ==>
          && Sent(s, req, s')
          && r.value.tip == s'.branches[req.branch]
          && (r.value.committed <==> s'.branches != s.branches))
  }

  /** What is sent to origin: the run branch's tip, at most one commit beyond base, carrying the
      staged tree and the expected message. */
  ghost predicate Sent(s: Repo, req: Request, s': Repo) {
    && req.branch in s'.branches
    && var tip := s'.branches[req.branch];
    && s'.pushes == s.pushes + [Push(req.branch, tip)]
    && FingerprintOf(s.worktree, req.reviewed) == req.fingerprint
    && IsStagedTree(tip.tree, s, req)
    && Beyond(req.base, tip) <= 1
    && SameMessage(tip, req.message)
  }

  /** The gates before staging: reviewed content unchanged, on the run branch, object graph intact, history clean. */
  ghost predicate MayStage(s: Repo, req: Request) {
    && req.reviewed != []
    && FingerprintOf(s.worktree, req.reviewed) == req.fingerprint
    && s.head == req.branch
    && !Tampered(s)
    && req.branch in s.branches
    && CleanHistory(s, req)
  }

  ghost predicate CleanHistory(s: Repo, req: Request)
    requires req.branch in s.branches
  {
    var tip := s.branches[req.branch];
    || tip == req.base
    || (Beyond(req.base, tip) == 1 && LooksClean(Dirty(s.worktree, s.index, s.flags, tip.tree)))
  }

  ghost function StagedBy(s: Repo, req: Request): set<Path>
    requires req.branch in s.branches
  {
    Diff(Staged(s, req), s.branches[req.branch].tree)
  }

  /** Staging succeeds and stages reviewed paths only, and nothing at all on top of an existing commit. */
  ghost predicate MayCommit(s: Repo, req: Request)
    requires req.branch in s.branches
  {
    && AddSucceeds(s.index, s.flags, s.worktree, req.reviewed, req.selects)
    && (if s.branches[req.branch] == req.base then StagedBy(s, req) <= SetOf(req.reviewed)
        else StagedBy(s, req) == {})
  }

  /** The gates on the final tip: at most one commit beyond base, the exact message, reviewed paths only. */
  ghost predicate MayPush(tip: Commit, req: Request) {
    && Beyond(req.base, tip) <= 1
    && SameMessage(tip, req.message)
    && Diff(req.base.tree, tip.tree) <= SetOf(req.reviewed)
  }

  /** Exactly the states from which an attempt that meets no fault succeeds. */
  ghost predicate Accepts(s: Repo, req: Request) {
    && MayStage(s, req)
    && MayCommit(s, req)
    && (if StagedBy(s, req) == {} then MayPush(s.branches[req.branch], req) else MergesNothingNew(req.base, s.merge))
  }

  /** Staging that touches only reviewed paths of base yields the staged tree. */
  lemma FreshCommitTree(s: Repo, req: Request)
    requires FingerprintOf(s.worktree, req.reviewed) == req.fingerprint
    requires Diff(Staged(s, req), req.base.tree) <= SetOf(req.reviewed)
    ensures IsStagedTree(Staged(s, req), s, req)
    ensures IsApprovedTree(Staged(s, req), req) <==> StraysAgree(s, req)
  {
    var index := Staged(s, req);
    forall p
      ensures Lookup(index, p) == if Strays(s, req, p) then Lookup(s.index, p) else ApprovedBlob(req.base.tree, req.fingerprint, p)
    {
      if p !in req.reviewed { assert p !in Diff(index, req.base.tree); }
    }
    ApprovedUnlessStray(s, req, index);
  }

  /** The staged tree is the approved one exactly when the index agrees with the worktree on every
      reviewed path that `git add` leaves alone. */
  lemma ApprovedUnlessStray(s: Repo, req: Request, tree: Tree)
    requires FingerprintOf(s.worktree, req.reviewed) == req.fingerprint
    requires IsStagedTree(tree, s, req)
    ensures IsApprovedTree(tree, req) <==> StraysAgree(s, req)
  {
    if IsApprovedTree(tree, req) {
      forall p | Strays(s, req, p) ensures Lookup(s.index, p) == BlobAt(s.worktree, p) {
        assert Lookup(tree, p) == ApprovedBlob(req.base.tree, req.fingerprint, p);
      }
    }
  }

  /** A tip that already equals the staged index, and differs from base on reviewed paths only, carries the
      staged tree. */
  lemma RetriedCommitTree(s: Repo, req: Request, tip: Tree)
    requires FingerprintOf(s.worktree, req.reviewed) == req.fingerprint
    requires Diff(Staged(s, req), tip) == {}
    requires Diff(req.base.tree, tip) <= SetOf(req.reviewed)
    ensures IsStagedTree(tip, s, req)
    ensures IsApprovedTree(tip, req) <==> StraysAgree(s, req)
  {
    NoDiffMeansEqual(Staged(s, req), tip);
    assert Diff(Staged(s, req), req.base.tree) <= SetOf(req.reviewed) by {
      forall p | p in Diff(Staged(s, req), req.base.tree) ensures p in Diff(req.base.tree, tip) { }
    }
    FreshCommitTree(s, req);
  }

  /** What can be checked before an attempt: no reviewed path is read as pathspec magic, and none has an index
      entry that git takes as it is. */
  predicate NothingStrays(s: Repo, reviewed: seq<Path>) {
    forall p :: p in reviewed ==> IsPlain(p) && !Held(s.index, s.flags, p)
  }

  lemma PlainPathsDoNotStray(s: Repo, req: Request, tree: Tree)
    requires PlainPicksItself(req.selects) && NothingStrays(s, req.reviewed)
    ensures forall p :: !Strays(s, req, p)
    ensures IsStagedTree(tree, s, req) ==> IsApprovedTree(tree, req)
  {
  }

  /** Committing what was staged is the one permitted move of the run branch. */
  lemma CommittingMints(s: Repo, req: Request, minted: Commit)
    requires MayStage(s, req) && MayCommit(s, req) && StagedBy(s, req) != {}
    requires minted == Commit(ParentsOf(s.branches[req.branch], s.merge), Staged(s, req), Stored(req.message), req.stamp)
    ensures Minted(s, req, s.(index := Staged(s, req), merge := NO_MERGE, branches := s.branches[req.branch := minted]))
    ensures minted != s.branches[req.branch]
  {
    FreshCommitTree(s, req);
    NoDiffMeansEqual(Staged(s, req), req.base.tree);
    MintedBeyond(req.base, s.merge, minted);
  }

  /** The commit an attempt mints passes the gates on message and paths, and the gate on history exactly
      when no unfinished merge brings in anything new. */
  lemma ReviewedCommitMayBePushed(c: Commit, s: Repo, req: Request)
    requires req.fingerprint.Keys == SetOf(req.reviewed)
    requires IsReviewedCommit(c, s, req)
    ensures MayPush(c, req) <==> MergesNothingNew(req.base, s.merge)
  {
    MintedBeyond(req.base, s.merge, c);
    StoredStripsBack(req.message);
    StagedDiff(c.tree, s, req);
  }

  /** Whatever strays, the staged tree differs from base on reviewed paths only. */
  lemma StagedDiff(tree: Tree, s: Repo, req: Request)
    requires req.fingerprint.Keys == SetOf(req.reviewed) && IsStagedTree(tree, s, req)
    ensures Diff(req.base.tree, tree) <= SetOf(req.reviewed)
  {
    forall p | p in Diff(req.base.tree, tree) ensures p in req.reviewed {
      assert Lookup(tree, p) == if Strays(s, req, p) then Lookup(s.index, p) else ApprovedBlob(req.base.tree, req.fingerprint, p);
    }
  }

  /** What an attempt sends is the approved tree if and only if, when it started, the index agreed with the
      worktree on every reviewed path `git add` would leave alone. */
  lemma SentIsApproved(s: Repo, req: Request, s': Repo)
    requires Sent(s, req, s')
    ensures IsApprovedTree(s'.branches[req.branch].tree, req) <==> StraysAgree(s, req)
  {
    ApprovedUnlessStray(s, req, s'.branches[req.branch].tree);
  }

  // ----- what is refused, and what is not -----

  /** A path whose name is not all blanks. */
  predicate HasName(p: Path) {
    exists i :: 0 <= i < |p| && p[i] != ' '
  }

  /** At `p` the commit, the index and the worktree do not all agree: an entry git looks at has other content
      in the worktree, an entry it takes as it is differs from the commit, or the commit has a file the index
      does not. */
  ghost predicate Differs(s: Repo, tip: Commit, p: Path) {
    || (p in s.index && p !in s.flags.assumed && p !in s.flags.sparse && BlobAt(s.worktree, p) != Lookup(tip.tree, p))
    || (p in s.index && (p in s.flags.assumed || p in s.flags.sparse) && Some(s.index[p]) != Lookup(tip.tree, p))
    || (p in tip.tree && p !in s.index)
  }

  /** On top of an existing commit, any tracked file that differs from it stops the attempt, reviewed or not. */
  lemma EditedFileIsRefused(s: Repo, req: Request, p: Path)
    requires req.branch in s.branches && s.branches[req.branch] != req.base
    requires Differs(s, s.branches[req.branch], p) && HasName(p)
    ensures !Accepts(s, req)
  {
    var tip := s.branches[req.branch];
    assert p in Dirty(s.worktree, s.index, s.flags, tip.tree);
    var i :| 0 <= i < |p| && p[i] != ' ';
    assert !LooksClean(Dirty(s.worktree, s.index, s.flags, tip.tree));
  }

  /** And nothing else does: when no tracked file with a name differs, a single commit beyond base that is what staging
      would give, with the right message and on reviewed paths only, is accepted. */
  lemma CleanRetryIsAccepted(s: Repo, req: Request)
    requires req.reviewed != [] && req.branch in s.branches && s.head == req.branch
    requires req.fingerprint.Keys == SetOf(req.reviewed)
    requires forall p :: p in req.fingerprint ==> Lookup(s.worktree, p) == req.fingerprint[p]
    requires !s.replaceRefs && !s.grafts && !s.shallow
    requires AddSucceeds(s.index, s.flags, s.worktree, req.reviewed, req.selects)
    requires var tip := s.branches[req.branch];
      && tip != req.base && Beyond(req.base, tip) == 1 && tip.tree == Staged(s, req)
      && StripNewlines(tip.message) == StripNewlines(req.message)
      && (forall p :: Lookup(tip.tree, p) != Lookup(req.base.tree, p) ==> p in req.reviewed)
      && (forall p :: HasName(p) ==> !Differs(s, tip, p))
    ensures Accepts(s, req)
  {
    var tip := s.branches[req.branch];
    forall p | p in Dirty(s.worktree, s.index, s.flags, tip.tree) ensures !HasName(p) { assert Differs(s, tip, p); }
    assert LooksClean(Dirty(s.worktree, s.index, s.flags, tip.tree));
    assert FingerprintOf(s.worktree, req.reviewed) == req.fingerprint;
    NoDiffMeansEqual(Staged(s, req), tip.tree);
  }

  /** The other grounds for refusal, each by itself. */
  lemma GroundsForRefusal(s: Repo, req: Request)
    ensures req.reviewed == [] ==> !Accepts(s, req)
    ensures s.head != req.branch ==> !Accepts(s, req)
    ensures s.replaceRefs || s.grafts || s.shallow ==> !Accepts(s, req)
    ensures (exists p :: p in req.reviewed && (p !in req.fingerprint || Lookup(s.worktree, p) != req.fingerprint[p])) ==> !Accepts(s, req)
    ensures (exists p :: SpecialIsPicked(s, req, p)) ==> !Accepts(s, req)
  {
  }

  /** A reviewed argument picks something git cannot store. */
  predicate SpecialIsPicked(s: Repo, req: Request, p: Path) {
    && req.selects.picks(req.reviewed, p) && p in s.worktree && s.worktree[p].Special?
    && (p !in s.index || (p !in s.flags.assumed && p !in s.flags.sparse))
  }

  /** What staging leaves at a path. */
  lemma StagedContent(s: Repo, req: Request, p: Path)
    ensures req.selects.picks(req.reviewed, p) && (p !in s.index || (p !in s.flags.assumed && p !in s.flags.sparse)) ==>
      Lookup(Staged(s, req), p) == BlobAt(s.worktree, p)
    ensures !req.selects.picks(req.reviewed, p) || (p in s.index && (p in s.flags.assumed || p in s.flags.sparse)) ==>
      Lookup(Staged(s, req), p) == Lookup(s.index, p)
  {
  }

  // ----- what goes wrong -----

  /** Base with one file, on the run branch, nothing flagged and nothing being merged. */
  function At(base: Commit, worktree: map<Path, Node>, index: Tree): Repo {
    Repo(worktree, index, NO_FLAGS, NO_MERGE, map["run" := base], "run", false, false, false, map[], [])
  }

  const ONE_FILE := Commit([], map["foo" := FileBlob("x", false)], "init\n", 0)

  const REVIEWED := Regular("reviewed", false)

  const SECRET := FileBlob("secret", false)

  /** A stray path with other content in the index is enough: the gates pass, and whatever a successful
      attempt sends is not the approved tree. */
  lemma StrayIsSent(s: Repo, req: Request, p: Path)
    requires FingerprintOf(s.worktree, req.reviewed) == req.fingerprint
    requires Strays(s, req, p) && Lookup(s.index, p) != BlobAt(s.worktree, p)
    ensures forall s', r :: Attempted(s, req, s', r) && r.Ok? ==> !IsApprovedTree(r.value.tip.tree, req)
  {
    forall s', r | Attempted(s, req, s', r) && r.Ok? ensures !IsApprovedTree(r.value.tip.tree, req) {
      SentIsApproved(s, req, s');
    }
  }

  /** `:foo` is read as the pathspec `foo`, so the commit takes what the index held at `:foo`. */
  lemma StrayPathIsSent()
    ensures
      var spec := Pathspec((args, q) => q == "foo", (args, names) => "foo" !in names);
      var req := Request("run", ONE_FILE, [":foo"], map[":foo" := Some(REVIEWED)], "harness: run-1", 1, spec);
      var s := At(ONE_FILE, map["foo" := Regular("x", false), ":foo" := REVIEWED], map["foo" := FileBlob("x", false), ":foo" := SECRET]);
      && Accepts(s, req)
      && forall s', r :: Attempted(s, req, s', r) && r.Ok? ==> !IsApprovedTree(r.value.tip.tree, req)
  {
    var spec := Pathspec((args, q) => q == "foo", (args, names) => "foo" !in names);
    var req := Request("run", ONE_FILE, [":foo"], map[":foo" := Some(REVIEWED)], "harness: run-1", 1, spec);
    var s := At(ONE_FILE, map["foo" := Regular("x", false), ":foo" := REVIEWED], map["foo" := FileBlob("x", false), ":foo" := SECRET]);
    assert FingerprintOf(s.worktree, req.reviewed) == req.fingerprint;
    assert Diff(Staged(s, req), ONE_FILE.tree) == {":foo"} by {
      forall q ensures q in Diff(Staged(s, req), ONE_FILE.tree) <==> q == ":foo" {
        assert Lookup(Staged(s, req), q) == if q == "foo" then BlobAt(s.worktree, q) else Lookup(s.index, q);
      }
    }
    StrayIsSent(s, req, ":foo");
  }

  /** `foo` is marked assume-unchanged, so `git add` leaves it alone and the commit takes what the index
      held there, though the path is plain. */
  lemma AssumedPathIsSent()
    ensures
      var spec := Pathspec((args, q) => q in args, (args, names) => exists p :: p in args && p !in names);
      var req := Request("run", ONE_FILE, ["foo"], map["foo" := Some(REVIEWED)], "harness: run-1", 1, spec);
      var s := At(ONE_FILE, map["foo" := REVIEWED], map["foo" := SECRET]).(flags := Flags({"foo"}, {}));
      && PlainPicksItself(spec) && IsPlain("foo") && Accepts(s, req)
      && forall s', r :: Attempted(s, req, s', r) && r.Ok? ==> !IsApprovedTree(r.value.tip.tree, req)
  {
    var spec := Pathspec((args, q) => q in args, (args, names) => exists p :: p in args && p !in names);
    var req := Request("run", ONE_FILE, ["foo"], map["foo" := Some(REVIEWED)], "harness: run-1", 1, spec);
    var s := At(ONE_FILE, map["foo" := REVIEWED], map["foo" := SECRET]).(flags := Flags({"foo"}, {}));
    assert "foo"[..1][0] == 'f' && ":"[0] == ':';
    assert FingerprintOf(s.worktree, req.reviewed) == req.fingerprint;
    assert Diff(Staged(s, req), ONE_FILE.tree) == {"foo"} by {
      forall q ensures q in Diff(Staged(s, req), ONE_FILE.tree) <==> q == "foo" {
        assert Lookup(Staged(s, req), q) == Lookup(s.index, q);
      }
    }
    StrayIsSent(s, req, "foo");
  }

  /** An unfinished merge that brings in something new is enough: the gates before the commit pass, the
      commit that is made is not the only one beyond base, and the attempt is refused too late. */
  lemma NewMergeAddsASecondCommit(s: Repo, req: Request)
    requires MayStage(s, req) && MayCommit(s, req) && StagedBy(s, req) != {} && !MergesNothingNew(req.base, s.merge)
    ensures !Accepts(s, req)
    ensures forall s' :: Minted(s, req, s') ==> Beyond(req.base, s'.branches[req.branch]) >= 2
  {
    forall s' | Minted(s, req, s') ensures Beyond(req.base, s'.branches[req.branch]) >= 2 {
      MintedBeyond(req.base, s.merge, s'.branches[req.branch]);
    }
  }

  /** For example a merge of `other`, one commit after base. */
  lemma UnfinishedMergeAddsASecondCommit()
    ensures
      var other := Commit([ONE_FILE], ONE_FILE.tree, "other\n", 7);
      var spec := Pathspec((args, q) => q in args, (args, names) => exists p :: p in args && p !in names);
      var req := Request("run", ONE_FILE, ["foo"], map["foo" := Some(REVIEWED)], "harness: run-1", 1, spec);
      var s := At(ONE_FILE, map["foo" := REVIEWED], ONE_FILE.tree).(merge := Merge([other], true));
      && MayStage(s, req) && MayCommit(s, req) && StagedBy(s, req) != {} && !MergesNothingNew(req.base, s.merge)
  {
    var other := Commit([ONE_FILE], ONE_FILE.tree, "other\n", 7);
    var spec := Pathspec((args, q) => q in args, (args, names) => exists p :: p in args && p !in names);
    var req := Request("run", ONE_FILE, ["foo"], map["foo" := Some(REVIEWED)], "harness: run-1", 1, spec);
    var s := At(ONE_FILE, map["foo" := REVIEWED], ONE_FILE.tree).(merge := Merge([other], true));
    assert FingerprintOf(s.worktree, req.reviewed) == req.fingerprint;
    assert Diff(Staged(s, req), ONE_FILE.tree) == {"foo"} by {
      forall q ensures q in Diff(Staged(s, req), ONE_FILE.tree) <==> q == "foo" {
        assert Lookup(Staged(s, req), q) == if q == "foo" then BlobAt(s.worktree, q) else Lookup(s.index, q);
      }
    }
    assert Reach(ONE_FILE) == {ONE_FILE};
    assert s.merge.heads[0] !in Reach(ONE_FILE);
  }

  /** The run's worktree as the harness drives it. */
  class RunWorktree {
    var repo: Repo

    constructor (initial: Repo)
      ensures repo == initial
    {
      repo := initial;
    }

    /** Returns whether HEAD is at base; refuses any history other than one clean commit beyond it. */
    method AssertNoUnreviewedHistory(req: Request, faults: Faults) returns (r: Result<bool, Refusal>)
      requires !Tampered(repo) && WellFormed(repo)
      ensures r.Ok? ==>
        && req.branch in repo.branches && CleanHistory(repo, req)
        && (r.value <==> repo.branches[req.branch] == req.base)
      ensures faults == map[] && req.branch in repo.branches && CleanHistory(repo, req) ==> r.Ok?
    {
      if ReadHistory in faults || req.branch !in repo.branches {
        return Err(GitFailed(ReadHistory));
      }
      var tip := repo.branches[req.branch];
      if tip == req.base {
        return Ok(true);
      }
      var seen := Seen(repo.overlay, tip);
      var count := Beyond(Seen(repo.overlay, req.base), seen);
      var dirty := Dirty(repo.worktree, repo.index, repo.flags, seen.tree);
      if count == 1 && LooksClean(dirty) {
        return Ok(false);
      }
      return Err(UnreviewedHistory);
    }

    /** Every gate that runs before anything is written. */
    method AssertMayStage(req: Request, faults: Faults) returns (r: Result<bool, Refusal>)
      requires WellFormed(repo)
      ensures r.Ok? ==> MayStage(repo, req) && (r.value <==> repo.branches[req.branch] == req.base)
      ensures faults == map[] && MayStage(repo, req) ==> r.Ok?
    {
      if req.reviewed == [] {
        return Err(NothingReviewed);
      }
      if FingerprintOf(repo.worktree, req.reviewed) != req.fingerprint {
        return Err(Drifted);
      }
      if ReadBranch in faults {
        return Err(GitFailed(ReadBranch));
      }
      if repo.head != req.branch {
        return Err(WrongBranch);
      }
      if ReadGraph in faults {
        return Err(GitFailed(ReadGraph));
      }
      if Tampered(repo) {
        return Err(ObjectGraphTampered);
      }
      r := AssertNoUnreviewedHistory(req, faults);
    }

    /** The gates that run once the branch tip is final: history count, message, branch diff. */
    method AssertMayPush(req: Request, faults: Faults) returns (r: Result<(), Refusal>)
      requires !Tampered(repo) && WellFormed(repo) && req.branch in repo.branches
      ensures r.Ok? ==> MayPush(repo.branches[req.branch], req)
      ensures faults == map[] && MayPush(repo.branches[req.branch], req) ==> r.Ok?
    {
      var tip := Seen(repo.overlay, repo.branches[req.branch]);
      var base := Seen(repo.overlay, req.base);
      if CountCommits in faults {
        return Err(GitFailed(CountCommits));
      }
      if Beyond(base, tip) > 1 {
        return Err(UnreviewedHistory);
      }
      if ReadMessage in faults {
        return Err(GitFailed(ReadMessage));
      }
      if !SameMessage(tip, req.message) {
        return Err(MessageNotAuthentic);
      }
      if ReadBranchDiff in faults {
        return Err(GitFailed(ReadBranchDiff));
      }
      if !(Diff(base.tree, tip.tree) <= SetOf(req.reviewed)) {
        return Err(UnreviewedPath);
      }
      return Ok(());
    }

    /** `git add` on the reviewed paths; refuses when it would stage anything else, or anything at all
        on top of an existing commit. Returns whether something is staged. */
    method StageReviewed(req: Request, headAtBase: bool, faults: Faults) returns (r: Result<bool, Refusal>)
      requires WellFormed(repo) && MayStage(repo, req)
      requires headAtBase <==> repo.branches[req.branch] == req.base
      modifies this
      ensures repo == old(repo).(index := repo.index)
      ensures r.Ok? ==>
        && MayCommit(old(repo), req)
        && repo.index == Staged(old(repo), req)
        && (r.value <==> StagedBy(old(repo), req) != {})
      ensures faults == map[] && MayCommit(old(repo), req) ==> r.Ok?
    {
      if (Add in faults && faults[Add].Before?) || !AddSucceeds(repo.index, repo.flags, repo.worktree, req.reviewed, req.selects) {
        return Err(GitFailed(Add));
      }
      repo := repo.(index := Staged(repo, req));
      if Add in faults {
        return Err(GitFailed(Add));
      }
      if ReadStaged in faults {
        return Err(GitFailed(ReadStaged));
      }
      var staged := Diff(repo.index, Seen(repo.overlay, repo.branches[req.branch]).tree);
      if !(staged <= SetOf(req.reviewed)) {
        return Err(UnreviewedPath);
      }
      if !headAtBase && staged != {} {
        return Err(SecondCommit);
      }
      return Ok(staged != {});
    }

    /** Stage the reviewed paths and, when something is staged, commit the index onto the run branch. */
    method StageAndCommit(req: Request, headAtBase: bool, faults: Faults) returns (r: Result<bool, Refusal>)
      requires WellFormed(repo)
      requires MayStage(repo, req)
      requires headAtBase <==> repo.branches[req.branch] == req.base
      modifies this
      ensures repo == old(repo).(index := repo.index, merge := repo.merge, branches := repo.branches)
      ensures BranchMove(old(repo), req, repo)
      ensures req.branch in repo.branches
      ensures r.Ok? ==>
        && MayCommit(old(repo), req)
        && repo.index == Staged(old(repo), req)
        && (r.value <==> repo.branches != old(repo).branches)
        && (r.value <==> StagedBy(old(repo), req) != {})
      ensures faults == map[] && MayCommit(old(repo), req) ==> r.Ok?
    {
      var staged :- StageReviewed(req, headAtBase, faults);
      if !staged {
        return Ok(false);
      }
      if MakeCommit in faults && faults[MakeCommit].Before? {
        return Err(GitFailed(MakeCommit));
      }
      var minted := Commit(ParentsOf(repo.branches[req.branch], repo.merge), repo.index, Stored(req.message), req.stamp);
      CommittingMints(old(repo), req, minted);
      repo := repo.(merge := NO_MERGE, branches := repo.branches[req.branch := minted]);
      if MakeCommit in faults {
        return Err(GitFailed(MakeCommit));
      }
      return Ok(true);
    }

    /** One attempt at committing and pushing the reviewed branch. */
    method CommitAndPush(req: Request, faults: Faults) returns (r: Result<Pushed, Refusal>)
      requires WellFormed(repo)
      modifies this
      ensures WellFormed(repo)
      ensures Attempted(old(repo), req, repo, r)
      ensures faults == map[] ==> (r.Ok? <==> Accepts(old(repo), req))
    {
      var headAtBase :- AssertMayStage(req, faults);
      var committed :- StageAndCommit(req, headAtBase, faults);
      var tip := repo.branches[req.branch];
      if committed {
        ReviewedCommitMayBePushed(tip, old(repo), req);
      }
      var _ :- AssertMayPush(req, faults);
      if PushBranch in faults && faults[PushBranch].Before? {
        return Err(GitFailed(PushBranch));
      }
      if !committed {
        RetriedCommitTree(old(repo), req, tip.tree);
      }
      repo := repo.(pushes := repo.pushes + [Push(req.branch, tip)]);
      if PushBranch in faults {
        return Err(GitFailed(PushBranch));
      }
      if ReadPushedHead in faults {
        return Err(GitFailed(ReadPushedHead));
      }
      return Ok(Pushed(tip, committed));
    }
  }
}
