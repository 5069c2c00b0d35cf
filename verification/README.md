# monorepo-harness: verified models

monorepo-harness runs a coding agent in a git worktree, has the result reviewed by agents, and decides
from the reviews what may be promoted, rerun or pushed. This project models its deterministic core in
Dafny and proves what the code is trusted for.

| area | files |
|---|---|
| Reviewed-branch push and pull requests | `Git.dfy`, `ReviewedPush.dfy`, `PullRequests.dfy` |
| Streaming log redaction, chunked secret scan | `LineRedactor.dfy`, `PemLines.dfy`, `PemLog.dfy`, `ScanOverlap.dfy` |
| Review consensus and promotion | `RefuteBinding.dfy`, `ChangeMeaning.dfy`, `RefuteVotes.dfy`, `Consensus.dfy`, `ConsensusMeaning.dfy`, `ReviewProcess.dfy` |
| Review rules | `ReviewRules.dfy`, `RuleSnapshot.dfy`, `RuleMeaning.dfy` |
| Rerun chains | `ParentLinks.dfy`, `RunStore.dfy`, `Continuation.dfy`, `RerunChain.dfy`, `ChainTree.dfy` |
| Prompt fences and the reviewer's knowledge section | `Fence.dfy`, `Packing.dfy`, `Utf8.dfy`, `OpsSection.dfy` |
| Knowledge promotion | `Frontmatter.dfy`, `PromotedFile.dfy`, `KnowledgePromoter.dfy`, `PromoteTwice.dfy` |
| Copilot polling | `CopilotPoll.dfy` |
| Test-weakening diff scan | `DiffScan.dfy`, `DiffMeaning.dfy` |
| Shared text and sequence lemmas | `Text.dfy`, `Bags.dfy` |

`dafny verify dfyconfig.toml` checks everything.

Code that changes state step by step is a class or a method with loops (`RunWorktree`, `PrDesk`,
`RedactingTransform`, `ReviewDesk`, `Builder`, `KnowledgeBase`, `World`), proved against a specification
on values; the theorems are about those specifications, over every input, every chunking, every order or
every run. The modules named `...Meaning`, and `PemLog` and `Utf8`, spell out what the specifications come to:
positions, counts, written-out texts and explicit numbers, in place of the definitions the code is checked with.

## How the outside is represented

- **git** is a value: trees are maps from path to blob, commits are values identified by parents, tree,
  message and stamp, and `overlay` is what read commands see when grafts or replace refs are present. The
  index has entries git takes as they are (`Flags`), and a merge may be unfinished (`Merge`). How `git add`
  reads its arguments is arbitrary (`Pathspec`); the one matching rule a theorem uses is that arguments
  without a leading colon each pick the path they spell (`PlainPicksItself`). Every command may fail before
  or after it acted.
- **Between attempts** anybody may edit the worktree, the index and its flags, HEAD and other branches, and
  leave a merge unfinished. Only the run branch itself, what was sent to origin and the pull-request record
  are taken to be the harness's alone.
- **Digests** are injective where the code relies on it (the reviewed fingerprint is the classified content
  itself; `sha` in `RefuteBinding`), and opaque functions elsewhere. NFC normalisation is the identity.
- **Numbers** read from JSON or configuration are `Number`: an exact real, an infinity or NaN, compared as
  JavaScript compares them. Strings are sequences of Unicode scalar values, and byte counts use UTF-8 widths;
  in `LineRedactor` and `ScanOverlap` an element stands for one UTF-16 unit, which is what the source counts.
- **YAML** is an opaque parser; of it `PromotedFile.Sane` asks that a list of fields with distinct names and
  plain or quoted values is read as the core schema of YAML 1.2.2 says (section 10.3.2): what was quoted, a
  number for digits and for what looks like one, the text of run ids and of other hashes.
- **Time** in `CopilotPoll` is a clock that never goes back and sleeps that last at least as long as asked;
  either may throw, and the reviewer's answers are arbitrary.
- **The secret detector** and the test-marker patterns are opaque predicates. The PEM marker grammar is modelled.

## What turned out not to hold

Each of these is stated with a concrete input, and with the condition under which the promise does hold.

- The pushed content is meant to be what the fingerprint covers (src/core/reviewed-branch-push.ts:180-199),
  but `git add` may leave a reviewed path alone: one that starts with a colon is read as pathspec magic, and
  one marked assume-unchanged is taken as the index has it. Then whatever the index held there is committed
  and sent: `StrayPathIsSent`, `AssumedPathIsSent`; exact condition in `SentIsApproved`, and
  `EveryRunIsSafe` for attempts that start without such paths.
- A second commit beyond base is meant never to be made (src/core/reviewed-branch-push.ts:261-272). With a
  merge unfinished in the worktree `git commit` records its heads as further parents; the push is then
  refused, but the branch stays as it is and the run is stuck: `UnfinishedMergeAddsASecondCommit`,
  `MergedRunIsStuck`; exact condition in `SecondCommitIffMerging`, and `EveryRunHasOneCommit`.
- A push retried after its commit was made is documented as idempotent
  (src/core/reviewed-branch-push.ts:410-416), but `git add` refuses a path that is in neither the worktree
  nor the index, so a run that deletes a reviewed file cannot be retried: `DeletionCannotBeRetried`; exact
  condition in `RetryAfterCommit` and `DeletionsAreMissed`.
- A 256-character overlap is described as ample for markers split across chunks
  (src/core/command-runner.ts:97-99). Two PEM markers that share their dashes can be read differently
  depending on where an over-long line is cut: `ChunkingCanMatter`; exact condition on a line in
  `FaithfulByLastMarkers`, on a redactor in `ChunkProofIffFaithful`, and a simple sufficient one in
  `LogIsChunkIndependent`.
- Promotion of knowledge is documented as idempotent (src/core/knowledge-promoter.ts:621-624). A content hash
  of digits, or digits `e` digits, is read back from the frontmatter as a number and forgotten:
  `NumericHashIsPromotedTwice`; exact condition in `SecondCallPromotesNothing`.
- A compiled rule may be refused by the snapshot reader, which alone checks requirement and override reviewer
  ids for path safety and the age limit for being positive and finite: `SomeCompiledRuleIsRefused`; exact
  condition in `CompiledRuleReadsBack`.
- A rerun is said to produce exactly one child (src/core/rerun.ts:327-329). The gate looks for children in
  the database only, so a run whose child exists only as files can get a second one:
  `FileOnlyChildIsOverlooked`; `GateOverlooksFilesOnly` and `OneChildPerParent` show that this is the only way.
- A continuation is meant to keep the depth of a migrated chain
  (src/hitch/orchestrator-runners-continuation.ts:267-274). It walks database rows only, so a parent whose
  ancestors exist only as files is taken for a root, and the attempt cap is under-counted from then on:
  `ContinuationMisplaces`, `MisplacedChainPassesCap`; exact condition in `ContinuationKeepsTruth`.

## Model

| member | source | states |
|---|---|---|
| Git.PathListRoundTrip | src/core/reviewed-branch-push.ts:324-330 | any list of non-empty paths survives the NUL-separated listing exactly: none trimmed, merged or lost |
| Git.ParentsReach | src/core/reviewed-branch-push.ts:281-292 | dropping heads that another one leads to, as `git commit` does unless fast-forwarding was ruled out, loses no history |
| Git.ParentsAreIndependent | src/core/reviewed-branch-push.ts:281-292 | the parents kept are not reachable from one another, so the commit records no redundant one |
| Git.MintedBeyond | src/core/reviewed-branch-push.ts:461-476 | a commit made on base while a merge is unfinished is the only one beyond base if and only if every pending head is already part of base |
| Git.MintedIsOneBeyond | src/core/reviewed-branch-push.ts:461-476 | with no merge pending, the commit has base as its one parent and is exactly one commit beyond it |
| Git.AddedTwice | src/core/reviewed-branch-push.ts:256-256 | staging the same paths a second time changes nothing, whatever the arguments pick and whatever is flagged |
| ReviewedPush.RunWorktree.AssertNoUnreviewedHistory | src/core/reviewed-branch-push.ts:428-455 | accepts only a tip at base or a single commit beyond it with a tracked tree that looks clean, and says which of the two it is |
| ReviewedPush.EditedFileIsRefused | src/core/reviewed-branch-push.ts:441-454 | on top of an existing commit, any tracked path with a name whose worktree content differs from that commit, reviewed or not, or that the index has lost, stops the attempt |
| ReviewedPush.CleanRetryIsAccepted | src/core/reviewed-branch-push.ts:441-454 | and nothing else does: when no such path differs, a single commit beyond base that is what staging gives, with the message expected and on reviewed paths only, is accepted |
| ReviewedPush.GroundsForRefusal | src/core/reviewed-branch-push.ts:217-254 | no reviewed paths, another HEAD, replace refs, grafts, a shallow repository, changed reviewed content and a special file picked are each enough to refuse |
| ReviewedPush.RunWorktree.AssertMayStage | src/core/reviewed-branch-push.ts:217-254 | passes exactly when the reviewed content is unchanged, HEAD is the run branch, the object graph is untampered and history is clean (faults aside) |
| ReviewedPush.RunWorktree.AssertMayPush | src/core/reviewed-branch-push.ts:296-312 | passes exactly when the tip is at most one commit beyond base, has the expected message and differs from base on reviewed paths only |
| ReviewedPush.RunWorktree.StageReviewed | src/core/reviewed-branch-push.ts:256-272 | stages nothing outside the reviewed paths, and nothing at all on top of an existing commit, or refuses; only the index changes |
| ReviewedPush.RunWorktree.StageAndCommit | src/core/reviewed-branch-push.ts:256-294 | the run branch either stays or moves from base to one commit of the staged tree, on base and the heads of any unfinished merge, even when a command fails halfway |
| ReviewedPush.RunWorktree.CommitAndPush | src/core/reviewed-branch-push.ts:201-322 | whatever the index and its flags, HEAD, an unfinished merge, untracked files and path names: anything sent is one tip at most one commit beyond base, with the expected message and the staged tree; without faults it succeeds if and only if `Accepts` |
| ReviewedPush.FreshCommitTree | src/core/reviewed-branch-push.ts:256-260 | on the fresh path the commit is base overridden by the fingerprinted content on the reviewed paths, except that a path `git add` leaves alone keeps what the index held; it is the approved tree if and only if the index agrees with the worktree there |
| ReviewedPush.RetriedCommitTree | src/core/reviewed-branch-push.ts:261-272 | the same, with the same exact condition, for the tip that a tolerated retry sends again |
| ReviewedPush.SentIsApproved | src/core/reviewed-branch-push.ts:314-322 | whatever an attempt sends carries the approved tree if and only if the index agreed with the worktree on every reviewed path that `git add` leaves alone |
| ReviewedPush.PlainPathsDoNotStray | src/core/reviewed-branch-push.ts:256-256 | nothing strays when no reviewed path starts with a colon and none has an index entry git takes as it is, and then the staged tree is the approved one |
| ReviewedPush.StrayIsSent | src/core/reviewed-branch-push.ts:256-260 | one stray path with other content in the index is enough: whatever a successful attempt sends is not the approved tree |
| ReviewedPush.StrayPathIsSent | src/core/reviewed-branch-push.ts:256-256 | a reviewed path `:foo`, read by git as the pathspec `foo`: every gate passes and what is sent is not the approved tree |
| ReviewedPush.AssumedPathIsSent | src/core/reviewed-branch-push.ts:256-256 | the same for the plain path `foo` when its index entry is marked assume-unchanged |
| ReviewedPush.NewMergeAddsASecondCommit | src/core/reviewed-branch-push.ts:281-300 | an unfinished merge that brings in something new passes every gate before the commit, which is then not the only one beyond base, and the attempt is refused |
| ReviewedPush.UnfinishedMergeAddsASecondCommit | src/core/reviewed-branch-push.ts:281-300 | such a state: base with one file, and a merge of the next commit pending |
| ReviewedPush.StagedDiff | src/core/reviewed-branch-push.ts:309-312 | whatever strays, the staged tree differs from base on reviewed paths only |
| ReviewedPush.ReviewedCommitMayBePushed | src/core/reviewed-branch-push.ts:296-312 | the commit an attempt mints passes the gates on the final tip if and only if no unfinished merge brings in anything new |
| PullRequests.CommitMessage | src/core/pr-creator.ts:386-396 | the message is never blank, so it cannot be forged by an empty one, and is the title whenever there is one |
| PullRequests.PrDesk.CreatePullRequest | src/core/pr-creator.ts:259-612 | a recorded pull request is returned unchanged; a new one is recorded only after this attempt's own push, and success without faults is exactly eligibility plus `Accepts` |
| PullRequests.PrDesk.PushForEscalation | src/core/reviewed-branch-push.ts:33-73 | the same guarantees for a run that still needs review, with no pull request recorded |
| PullRequests.EveryRunIsBounded | src/core/pr-creator.ts:398-497 | over every sequence of attempts, failures and interference, with no condition: the branch leaves base at most once, and nothing is ever sent but base or that one commit, never more than one commit beyond base and changing reviewed paths only |
| PullRequests.StepKeepsBounded | src/core/pr-creator.ts:398-497 | each step keeps that, and never moves a branch that already left base |
| PullRequests.SecondCommitIffMerging | src/core/reviewed-branch-push.ts:281-300 | the commit an attempt makes is the only one beyond base if and only if no unfinished merge brings in anything new |
| PullRequests.EveryRunHasOneCommit | src/core/pr-creator.ts:423-460 | when no attempt starts with such a merge, there is never a second commit beyond base |
| PullRequests.MergedRunIsStuck | src/core/reviewed-branch-push.ts:428-455 | and if there is one, every later attempt is refused |
| PullRequests.EveryRunIsSafe | src/core/pr-creator.ts:398-497 | when no attempt starts with a reviewed path that is read as magic or flagged in the index: everything ever sent is one and the same commit, whose tree is base overridden by the approved content |
| PullRequests.StepKeepsSafe | src/core/pr-creator.ts:398-497 | each such attempt, and any interference, keeps that |
| PullRequests.ReviewedCommitIsFinal | src/core/pr-creator.ts:423-434 | once the reviewed commit exists it is never replaced or built upon, so every retry sends the same commit |
| PullRequests.RetryAfterCommit | src/core/reviewed-branch-push.ts:261-308 | after a commit whose push did not get through, a later attempt from either entry point succeeds if and only if it expects the committed message, that commit is the only one beyond base, `git add` still finds all its arguments and the tracked tree looks clean |
| PullRequests.DeletionsAreMissed | src/core/reviewed-branch-push.ts:256-256 | with literal paths `git add` finds all its arguments again if and only if no reviewed path is a staged deletion and none lies outside the sparse checkout |
| PullRequests.StagedDeletionIsRefused | src/core/reviewed-branch-push.ts:256-256 | so every run with literal paths that deletes a reviewed file is refused on retry |
| PullRequests.OtherMessageIsRefusedForGood | src/core/reviewed-branch-push.ts:304-308 | once a commit exists beyond base, an attempt that expects another message is refused in every later state |
| PullRequests.SalvageBlocksPullRequest | src/core/reviewed-branch-push.ts:59-69 | so after an escalation push a pull request under its default message is never accepted |
| PullRequests.DeletionCannotBeRetried | src/core/reviewed-branch-push.ts:256-260 | a run that deletes its one file: accepted at first, refused after any attempt that committed |
| LineRedactor.RedactingTransform.Consume | src/core/command-runner.ts:116-152 | one chunk advances the buffer, the drop flag, the tail and the output as the stream specification says |
| LineRedactor.RedactingTransform.ObserveDropped | src/core/command-runner.ts:110-114 | a discarded piece is shown to the redactor with the kept tail, and the tail stays the last 256 characters |
| LineRedactor.RedactingTransform.Finish | src/core/command-runner.ts:166-178 | the final line without a newline is emitted once, withheld if it was over the cap |
| LineRedactor.StreamMatchesText | src/core/command-runner.ts:101-180 | for every cutting into chunks, output and redactor state equal the line-by-line specification of the whole text |
| LineRedactor.StatelessIsChunkProof | src/core/command-runner.ts:101-180 | with a redactor that judges each line by itself, any two cuttings of one text give the same log, without any condition |
| LineRedactor.ChunkProofIffFaithful | src/core/command-runner.ts:108-114 | a stateful redactor is immune to chunking if and only if re-observing the 256-character tail with the next piece is as good as observing everything at once |
| LineRedactor.BuffersStayBounded | src/core/command-runner.ts:104-106 | the pending line never exceeds the cap and the tail never exceeds 256, in the units the source counts, whatever arrives |
| LineRedactor.DroppedLineObservesFragments | src/core/command-runner.ts:110-114 | while a line is dropped, the redactor sees exactly the overlapping fragments |
| LineRedactor.FragmentsCover | src/core/command-runner.ts:97-99 | every stretch of at most 257 characters of a discarded line lies inside one observed fragment |
| PemLines.FaithfulByLastMarkers | src/reporter/secret-scan.ts:185-191 | a line may be cut anywhere past the cap if and only if at every cut the overlap window ends on the marker kind that scanning from the start ends on |
| PemLines.ApartAndShortIsFaithful | src/reporter/secret-scan.ts:185-191 | a line within the cap always, and an over-long one whose PEM markers do not overlap and are at most 257 characters, leaves the block state independent of how it is cut |
| PemLines.LogIsChunkIndependent | src/reporter/secret-scan.ts:202-221 | for the real secret-line redactor, a log whose over-long lines are such is the same for every cutting |
| PemLog.LogShows | src/reporter/secret-scan.ts:202-221 | line by line, for every cutting of an output whose over-long lines are such: a line is withheld if it is over 1 MiB, looks secret, has a marker or lies inside a block that the last earlier marker left open, and is printed as it is otherwise |
| PemLog.HasMarkerMeans | src/reporter/secret-scan.ts:179-179 | a line has a marker if and only if the text of one, `BEGIN` or `END` with an optional label, occurs in it |
| PemLog.KindMeans | src/reporter/secret-scan.ts:186-186 | which headers open a block and which close one |
| PemLog.LastKindMeans | src/reporter/secret-scan.ts:181-191 | a line leaves the block as it was exactly when it has no marker, and else as its last marker says when markers do not run into each other |
| PemLines.ChunkingCanMatter | src/reporter/secret-scan.ts:185-221 | after an over-long line with two markers sharing their dashes, the next line is withheld from the log or printed in it depending on the cut |
| ScanOverlap.ScanChunked | src/codex/redact-events.ts:27-44 | the reasons returned are exactly those found in some chunk |
| ScanOverlap.ShortPiecesAreCovered | src/codex/redact-events.ts:31-34 | every piece of text at most one longer than the overlap lies inside one scanned chunk |
| ScanOverlap.LongerPieceIsMissed | src/codex/redact-events.ts:31-34 | that bound is exact: in any text longer than one chunk a piece one character longer lies in none |
| ScanOverlap.SecretIsFound | src/claude/redact-events.ts:32-45 | a stretch the detector recognises, context or text edge included, of at most that length is found wherever it stands |
| ScanOverlap.SuspectIsMatched | src/codex/redact-events.ts:35-43 | a stretch of at most that length that is suspected for one reason or another in any surroundings makes some chunk match, even where one finding hides another |
| ScanOverlap.ScanOutput | src/codex/redact-events.ts:27-44 | with the harness's sample and overlap, every recognised secret of at most 1023 characters is reported, every suspected one makes the text match, and every reason reported comes from some chunk |
| RefuteBinding.NormalFormOfChanges | src/core/refute-binding.ts:68-75 | normalising is idempotent, and leaves a text alone if and only if it has no tabs, returns, doubled or line-end spaces and no white ends |
| ChangeMeaning.SolidTextIsKept | src/core/refute-binding.ts:68-75 | normalising keeps every character that is not white, in order, and adds none |
| ChangeMeaning.GapsAreNormalised | src/core/refute-binding.ts:68-75 | between two such characters, spaces and tabs become one space, and line ends of any convention line feeds, with one space after them if the next line is indented |
| RefuteBinding.HashIsCanonicalText | src/core/refute-binding.ts:77-81 | two changes share a target hash exactly when their canonical texts are equal |
| RefuteBinding.TargetHashIs | src/core/refute-binding.ts:77-81 | what is hashed is the version tag, a zero and the canonical text |
| RefuteBinding.ActiveRequiredChangeMap | src/core/refute-binding.ts:167-181 | the map holds exactly the hashes of the active changes, each bound to the smallest index that has it |
| RefuteBinding.VerifyRefuteBinding | src/core/refute-binding.ts:83-142 | a vote is bound if and only if its quoted text and declared hash agree and point at an active change, then to the first such change |
| RefuteBinding.BoundTextsAgree | src/core/refute-binding.ts:91-117 | where hashes tell canonical texts apart, a vote that quotes its target is bound to a change with the same canonical text |
| RefuteBinding.QuotedTargetReadsTheSame | src/core/refute-binding.ts:77-117 | that holds of the harness's own versioned hash, given an injective digest |
| RefuteVotes.CheckTarget | src/core/review-consensus.ts:318-352 | one target's tally: void as soon as a reviewer voted twice, else refuted exactly on enough participants and a strict majority of the frozen reviewers |
| RefuteVotes.EvaluateRefutes | src/core/review-consensus.ts:294-361 | grouping votes by target and by reviewer decides exactly the declarative set of refuted targets |
| RefuteVotes.RefutedMeansMajority | src/core/review-consensus.ts:346-349 | a refuted target has more refutes than upholds, and upholds from fewer than half of the frozen reviewers |
| ConsensusMeaning.RefutedMeans | src/core/review-consensus.ts:294-361 | a change is refuted if and only if its eligible votes are by different reviewers, number at least the minimum (1 by default) and more than half of the frozen reviewers refute, counted by position |
| RefuteVotes.SecondVoteVoids | src/core/review-consensus.ts:325-332 | any second eligible vote of one reviewer on a target leaves it unrefuted |
| RefuteVotes.OrderOfVotesIsIrrelevant | src/core/review-consensus.ts:303-313 | whether a target is refuted does not depend on the order of votes |
| Consensus.FilterStale | src/core/review-consensus.ts:382-402 | splits proposals, in order, into those that count and those that are superseded or too old |
| Consensus.PickLatest | src/core/review-consensus.ts:181-205 | returns the first proposal with the greatest timestamp text |
| Consensus.CheckRequirements | src/core/review-consensus.ts:208-292 | the one-pass loop with its running blocking status equals the declarative rule: rejected, else changes requested, else approved, else pending |
| Consensus.Evaluate | src/core/review-consensus.ts:129-292 | override, latest-proposal and consensus modes each give the decision their rule names, over the proposals that are not stale |
| ConsensusMeaning.VerdictMeans | src/core/review-consensus.ts:208-292 | rejected, else changes requested, else approved when every requirement has its approvals, at least the minimum of distinct voices and at least the rate of the group's size, else pending |
| ConsensusMeaning.LoneApprovalWaits | src/core/review-consensus.ts:427-450 | one approval never satisfies a quorum of more than one |
| ConsensusMeaning.CurrentIsActive | src/core/review-consensus.ts:382-420 | a proposal counts if and only if it is not superseded where that matters and is provably within the age limit, in milliseconds |
| ConsensusMeaning.TextLessMeans | src/core/review-consensus.ts:451-464 | timestamps and ids are compared by the first character in which they differ, a prefix coming first |
| Consensus.VerdictIgnoresOrder | src/core/review-consensus.ts:208-292 | the consensus is the same for every order of proposals, of votes and of requirements |
| Consensus.ApprovalNeverUndoes | src/core/review-consensus.ts:229-236 | adding an approved proposal never undoes an approval |
| Consensus.PassedOverOnlyIfRefuted | src/core/review-consensus.ts:363-373 | a blocking changes request is passed over only if it lists changes and every one has a refuting strict majority |
| ReviewProcess.BuildDecision | src/core/reviewer-agent-decision.ts:64-119 | a decision that gets through is the one of the three that was written, with exactly the changes listed, and a changes request lists at least one |
| ReviewProcess.DecisionRoundTrip | src/core/reviewer-agent-decision.ts:64-119 | writing any decision with its changes and reading it gives it back, unless it is a changes request without changes, which is refused |
| ReviewProcess.SortedIsInOrder | src/core/consensus-enrichment.ts:57-65 | the gate reads proposals by reviewer and then by proposal id |
| ReviewProcess.ReviewDesk.InsertProposal | src/db/repositories/review-proposals.ts:75-135 | a submission supersedes that reviewer's open row, or is refused if told not to; it is refused once the run has left review |
| ReviewProcess.SubmissionMeans | src/db/repositories/review-proposals.ts:75-135 | what an accepted submission changes: one open row more, that reviewer's rows superseded, nothing else |
| ReviewProcess.ReviewDesk.ActiveRows | src/core/consensus-enrichment.ts:20-36 | the rows considered are exactly the open rows of admitted reviewers, sorted |
| ReviewProcess.ReviewDesk.EvaluateGate | src/core/review-processor-paths.ts:175-235 | what is read and concluded before any write: a record exactly when the run is open, has active proposals and a decisive consensus |
| ReviewProcess.ReviewDesk.ProcessConsensus | src/core/review-processor-paths.ts:154-286 | one atomic step: promotes exactly when the run is open, has active proposals and the consensus is decisive, and otherwise changes nothing |
| ReviewProcess.ConsensusByRows | src/core/review-processor-paths.ts:187-215 | the consensus read off the stored rows: a rejection if and only if some open, admitted, timely row of a group that lists rejections rejects; short of that a changes request if and only if some such row has a standing change |
| ReviewProcess.RejectionIsHeard | src/core/review-processor-paths.ts:187-215 | one such rejection is enough |
| ReviewProcess.RecordedChanges | src/core/review-processor-paths.ts:225-235 | the record lists, once each, exactly the changes that included proposals which did not approve ask for, less the refuted ones of changes requests |
| ReviewProcess.VotesAreGrouped | src/core/consensus-enrichment.ts:82-98 | a vote counts with the group its reviewer has in the registry, and is otherwise as cast |
| ReviewProcess.EveryRunIsSound | src/core/review-processor-paths.ts:175-271 | after any events: at most one unsuperseded row per reviewer, processed rows are exactly the recorded ones, and open means nothing is recorded |
| ReviewProcess.DecidedOnce | src/core/review-processor-paths.ts:182-186 | a run leaves review at exactly one event, with the consensus of all eligible active proposals at that moment |
| ReviewProcess.DecisionIsFinal | src/core/review-processor-paths.ts:182-186 | once decided, no later event changes the status, the proposals or the record |
| ReviewProcess.PromotionConsumesIncluded | src/core/review-processor-paths.ts:216-219 | exactly the admitted, open, fresh proposals become processed and every other row is untouched |
| ReviewProcess.SentBackHasWork | src/core/review-processor-paths.ts:220-235 | if every changes request lists a change, a run sent back by consensus records at least one change that was not refuted |
| ReviewRules.FrozenReviewerIds | src/core/review-rule.ts:178-186 | collects exactly the reviewers some requirement declares |
| ReviewRules.AdmittedMeans | src/core/review-rule.ts:178-186 | a reviewer is admitted if and only if some requirement declares them or none declares anybody |
| ReviewRules.FilterDropsNoVerdict | src/core/review-rule-types.ts:181-306 | under the invariants the frozen-id filter never drops a declared reviewer's verdict, nor any verdict where a requirement declares none |
| ReviewRules.MixedRuleDropsBlocker | src/core/review-rule-types.ts:181-306 | a rule mixing declared and undeclared requirements would drop a blocker, and the invariants refuse it |
| RuleSnapshot.ValidateStrings | src/core/review-rule-snapshot.ts:304-319 | the loop with a growing seen set accepts exactly the lists of non-blank, distinct strings |
| RuleMeaning.CompiledRuleSaysTheSame | src/core/review-rule.ts:36-141 | field by field, a compiled rule is what the profile said, with the documented default where it said nothing |
| RuleMeaning.ListedRejectionRejects | src/core/review-rule.ts:73-76 | so a rejection in a group whose profile lists rejections makes the verdict of the compiled rule a rejection |
| RuleMeaning.BlockingIsSpelled | src/core/review-rule-snapshot.ts:321-336 | how blocking decisions are spelled in a snapshot; a list with anything else in it is refused |
| RuleMeaning.InvariantsMean | src/core/review-rule-types.ts:181-306 | the shared invariants, said on counts: mode and requirements, all or none declared, caps, enough declared reviewers, refuters |
| RuleMeaning.PathSafeMeans | src/core/review-rule-snapshot.ts:289-302 | which reviewer ids are safe as a path segment |
| RuleSnapshot.AcceptedRuleIsSafe | src/core/review-rule-snapshot.ts:26-94 | every rule the reader accepts satisfies the shared invariants, has positive whole counts, path-safe and distinct reviewer ids and a usable age limit |
| RuleSnapshot.CompiledRuleReadsBack | src/core/review-rule-snapshot.ts:26-94 | a compiled rule reads back unchanged if and only if its reviewer ids are path-safe, its override list is distinct and its age limit positive and finite; otherwise it is refused, never altered |
| RuleSnapshot.AcceptedRuleIsStable | src/core/review-rule-snapshot.ts:26-94 | whatever snapshot is accepted, saving its rule again and reading it gives the same rule |
| RuleSnapshot.DefaultRuleReadsBack | src/core/review-rule-types.ts:116-126 | a profile without a review section compiles to the default rule, which always reads back |
| RuleSnapshot.SomeCompiledRuleIsRefused | src/core/review-rule.ts:95-99 | a profile that compiles and whose snapshot the reader refuses |
| RerunChain.ResolveParentChainPosition | src/core/rerun.ts:211-249 | returns the recorded position, else the one walking finds; refuses as a cycle if and only if the links never end, and as missing if and only if they run into an unknown run |
| RerunChain.PrepareRerunFromReview | src/core/rerun.ts:256-430 | accepts with a position if and only if the parent was sent back with its target recorded, stands one below it, is within the cap, has no child row and a review that asks for changes, and the goal fits |
| RerunChain.AcceptedRerunMeans | src/core/rerun.ts:273-372 | an accepted rerun's cap is at least 1 and its attempt at most the cap asked for, or 2; its parent was sent back with changes, has its target recorded and no child row |
| RerunChain.CapDecides | src/core/rerun.ts:318-325 | with everything else in order, a parent standing at n - 1 may be rerun under a cap of n and one standing at n may not |
| RerunChain.RunIdMeans | src/core/rerun.ts:27-27 | a run id names a directory directly below the runs directory |
| RerunChain.StandingIsWalking | src/core/rerun.ts:216-224 | in a truthful store the fast path and the walk agree with walking the whole store |
| Continuation.DeriveRootRunId | src/hitch/orchestrator-runners-continuation.ts:242-265 | the loop over rows stops where the row walk stops, and reads the root off there |
| Continuation.DeriveRerunAttempt | src/hitch/orchestrator-runners-continuation.ts:275-302 | the loop over rows counts the links to where the other walk stops, and adds what is recorded there |
| Continuation.NoParentNoWalk | src/hitch/orchestrator-runners-continuation.ts:242-285 | an empty parent or root counts as none: such a run is its own root unless it names one, and its continuation is one above what it records |
| Continuation.RowWalkFinds | src/hitch/orchestrator-runners-continuation.ts:253-264 | the walk stops at a row that answers the question if and only if one can be reached through rows within 10,000 links, despite missing rows and cycles |
| Continuation.DerivedIsWalked | src/hitch/orchestrator-runners-continuation.ts:372-399 | in a truthful store the derived place is the one walking the whole store gives if and only if both row walks find an answer |
| RunStore.ChildRecord | src/core/workflow-runner.ts:211-245 | a new child's recorded root and attempt are true if and only if its parent stands exactly one below |
| RerunChain.ContinuationKeepsTruth | src/core/workflow-runner.ts:211-245 | a continuation keeps the store truthful if and only if its parent's row walks find an answer |
| RerunChain.StepKeepsTruth | src/core/workflow-runner.ts:211-245 | original runs, reruns, reviews, exports and lost exports keep recorded positions equal to walked ones; a continuation does exactly when it is anchored |
| RerunChain.RecordsStayTruthful | src/core/rerun.ts:211-350 | from any truthful store, after any steps whose continuations were anchored, each run's recorded root and attempt are those found by walking parent links |
| RunStore.LegacyIsTruthful | src/core/rerun.ts:205-209 | every store without chain records is truthful, whatever its links, cyclic or dangling |
| RerunChain.ChildrenComeFromSteps | src/core/workflow-runner.ts:137-159 | every new row with a parent was made by an accepted rerun, recording an attempt within its cap, or by a continuation |
| RerunChain.RerunMade | src/core/workflow-runner.ts:211-245 | a run that a rerun made is there in every later store, with an attempt within that rerun's cap |
| RerunChain.RerunsStayWithinCap | src/core/rerun.ts:318-325 | when continuations were anchored, walking up from any run that a rerun made takes no more hops than the attempts asked for, or 2 |
| RerunChain.ContinuationMisplaces | src/hitch/orchestrator-runners-continuation.ts:249-264 | continuing a row whose parent exists only as files records itself as root and attempt 1, where walking finds another root one hop further |
| RerunChain.MisplacedChainPassesCap | src/core/rerun.ts:216-224 | and the fast path then lets a rerun past the default cap of 2 |
| RerunChain.GateOverlooksFilesOnly | src/core/rerun.ts:336-346 | a gate that lets a second child through has overlooked one that exists only as files, and no other |
| RerunChain.OneChildPerParent | src/core/workflow-runner.ts:137-159 | over every sequence of steps, two children of one parent, in rows or in files, were both there from the start, or one of them was, as files without a row |
| RerunChain.FileOnlyChildIsOverlooked | src/core/rerun.ts:330-346 | a parent whose child exists only as files is given a second one |
| RerunChain.SentBackPassesGate | src/core/rerun.ts:365-372 | every run that consensus sent back passes the gate's demand for required changes, if every changes request listed one |
| ChainTree.FindRoot | src/core/rerun.ts:562-571 | terminates on every finite parent map with a known run the requested one climbs to, and with a true top when the links end |
| ChainTree.Builder.Build | src/core/rerun.ts:574-591 | with the shared guard, places a run and everything below it exactly once, and grows the guard by exactly that |
| ChainTree.BuildRerunChain | src/core/rerun.ts:539-593 | for every finite parent map, cyclic or not: the tree holds exactly the runs whose links reach the chosen root, each once, the requested run among them, each under the run its link names |
| Fence.NoTagLeft | src/codex/prompt-builder.ts:52-61 | one pass leaves no opening or closing tag in any text, however brackets are nested or repeated |
| Fence.SecondPassIsIdentity | src/codex/prompt-builder.ts:52-61 | text without a tag is left as it is, so a second pass changes nothing |
| Fence.OnlyBracketsAreErased | src/codex/prompt-builder.ts:52-61 | a pass only ever leaves out brackets; nothing else is changed or moved |
| Fence.TagMeans | src/codex/prompt-builder.ts:52-61 | what a tag is: a bracket, perhaps a slash, the name in any mix of cases, a bracket |
| Fence.LinesAreNeutralisedApart | src/codex/prompt-builder.ts:52-61 | the pass works on each line by itself |
| Fence.FenceHolds | src/codex/prompt-builder.ts:64-122 | whatever the knowledge text and wherever it is cut, the first tag after the opening fence is the harness's own closing one |
| Fence.FencesHaveTagNames | src/codex/prompt-builder.ts:52-61 | the three fence names are ones the fence theorems apply to |
| Packing.PushWhileFits | src/core/operational-knowledge.ts:448-462 | shows the longest prefix of blocks reached while each prefix fits, and says when the budget cut it short |
| Packing.PopUntilFits | src/core/operational-knowledge.ts:465-473 | drops blocks from the end to the largest count that fits together with the note |
| Packing.Pack | src/core/operational-knowledge.ts:448-479 | the body fits the budget; everything is shown exactly when everything fits, and otherwise no more blocks would fit with the note |
| Utf8.SizeIsBytes | src/core/operational-knowledge.ts:396-398 | sizes are numbers of UTF-8 bytes |
| Utf8.BytesDecode | src/core/operational-knowledge.ts:396-398 | the bytes of a character stand for that character |
| OpsSection.OpsIsUsable | src/core/operational-knowledge.ts:382-383 | the section's own tag and truncation marker are ones the section theorems apply to |
| OpsSection.FittedMarker | src/core/operational-knowledge.ts:400-406 | the fitted marker is as much of the marker as the budget allows, byte for byte, and holds no tag |
| OpsSection.BuildReviewSection | src/core/operational-knowledge.ts:427-504 | included entries are a prefix, included plus omitted are all entries, and the body is packed maximally within the byte budget |
| OpsSection.IncludedIsShown | src/core/operational-knowledge.ts:440-462 | every entry counted as included is in the body: its title as a heading, its kind, scope and tags, and its body, each neutralised |
| OpsSection.CapsMean | src/core/operational-knowledge.ts:437-439 | the caps are those asked for, 10 entries and 12288 bytes by default; a negative budget is none and a negative count drops from the end |
| OpsSection.SectionStaysFenced | src/core/operational-knowledge.ts:385-394 | no entry can close the fence: the first tag after the body is the harness's own |
| Frontmatter.SplitFrontmatter | src/core/knowledge-promoter.ts:303-328 | the loop finds the first closing line of dashes and splits there |
| Frontmatter.DashesMean | src/core/knowledge-promoter.ts:303-328 | a delimiter line is three dashes with nothing but white around them |
| Frontmatter.WrittenReadsBack | src/core/knowledge-promoter.ts:303-328 | splitting a written file gives back the frontmatter lines and the body with its line ends as a single newline |
| Frontmatter.BodyRoundTrip | src/core/knowledge-promoter.ts:303-328 | the body comes back unchanged if and only if it holds no carriage return before a newline |
| PromotedFile.NamesDiffer | src/core/knowledge-promoter.ts:207-213 | two candidates of one run never share a file name, whatever their titles |
| PromotedFile.PromotedFileReadsBack | src/core/knowledge-promoter.ts:261-293 | a scan recovers a promoted file's run and index always, and its hash if and only if the hash does not look like a number |
| PromotedFile.FrontmatterReadsBack | src/core/knowledge-promoter.ts:234-285 | domain, title, confidence, status, reviewer and time read back as they were, next to the run and index |
| PromotedFile.PromotedBodyIsRead | src/core/knowledge-promoter.ts:286-293 | the body read back is the title as a heading, the evidence or a note that there is none, and the content, each with its line ends as a single newline |
| PromotedFile.ScannedHash | src/core/knowledge-promoter.ts:366-371 | a scan takes as a hash only sixteen hexadecimal digits held as text |
| PromotedFile.SafeKindMeans | src/core/knowledge-promoter.ts:24-24 | which kinds are safe as a directory name |
| KnowledgePromoter.ScanKindDir | src/core/knowledge-promoter.ts:350-382 | the sets hold exactly the hashes and origins some markdown file of the directory carries |
| KnowledgePromoter.KnowledgeBase.Judge | src/core/knowledge-promoter.ts:644-680 | the lazily seeded scans give exactly the declarative reason a candidate is passed over |
| KnowledgePromoter.KnowledgeBase.Promote | src/core/knowledge-promoter.ts:626-722 | writes exactly the chosen candidates and reports every index with its reason; stops at the first unsafe kind with what was chosen before it written |
| KnowledgePromoter.EveryIndexOnce | src/core/knowledge-promoter.ts:643-705 | every candidate index is reported exactly once, as promoted or as skipped |
| KnowledgePromoter.NoContentTwice | src/core/knowledge-promoter.ts:672-680 | unless duplicates are allowed, no two promoted candidates of a kind share a hash, nor has any the hash of an existing file |
| PromoteTwice.WrittenStays | src/core/knowledge-promoter.ts:682-693 | after a call the file of every promoted candidate is there with its text, never overwritten by another one |
| PromoteTwice.OthersStay | src/core/knowledge-promoter.ts:682-693 | and every other file is as it was |
| PromoteTwice.HashesAfter | src/core/knowledge-promoter.ts:350-382 | a scan after a call sees the hashes of the files kept and of the promoted ones unless they look like numbers |
| PromoteTwice.SecondCallPromotesNothing | src/core/knowledge-promoter.ts:620-624 | an immediate second call promotes nothing if and only if everything skipped as a duplicate is still recognisable from the files |
| PromoteTwice.PromotionIsIdempotent | src/core/knowledge-promoter.ts:620-624 | it promotes nothing when no file was overwritten and no duplicate hash looks like a number |
| PromoteTwice.NumericHashIsPromotedTwice | src/core/knowledge-promoter.ts:278-278 | two equal candidates with a numeric-looking hash: the second call promotes the other one |
| CopilotPoll.Normalize | src/core/copilot-review-run.ts:105-142 | any raw config becomes one with at least one attempt, timers in range and no busy loop, and a usable one is kept as it is |
| CopilotPoll.NormalizedMeans | src/core/copilot-review-run.ts:105-142 | field by field, a whole number in range is kept and anything else becomes 3 attempts, 300000 and 15000 milliseconds; a zero interval is in range only under a zero timeout |
| CopilotPoll.PollsWithin | src/core/copilot-review-run.ts:265-331 | polls that start one interval apart within the timeout number at most the ceiling of timeout over interval |
| CopilotPoll.RequestReview | src/core/copilot-review-run.ts:218-241 | stops at the first successful request, after all allowed attempts failed, or when a sleep throws |
| CopilotPoll.WaitForNext | src/core/copilot-review-run.ts:325-330 | going on means a whole interval has passed and the deadline has not; giving up means the deadline has |
| CopilotPoll.PollUntilReviewed | src/core/copilot-review-run.ts:243-331 | terminates for every reviewer, clock and sleep, throwing or not: at most the bound of polls, reviewed only if a poll said so, given up only once the budget is used; with no delays the bound is reached |
| CopilotPoll.RunCopilotReview | src/core/copilot-review-run.ts:195-340 | the whole run on any raw config keeps these bounds on attempts and polls, and fails without a throw only if every request failed |
| DiffScan.DetectsTestWeakening | src/core/automerge-tiers.ts:87-119 | the one-pass scan with counters and early returns decides the per-file definition of a weakened test |
| DiffMeaning.WeakenedMeans | src/core/automerge-tiers.ts:73-119 | a patch is weak if and only if some stretch of lines from a header naming `tests/` to the next header has a deletion line, an added disabling line, or more removed than added definitions, counted by position |
| DiffMeaning.NamesTestMeans | src/core/automerge-tiers.ts:99-101 | which headers name a file under `tests/` |
| DiffMeaning.OneTestFile | src/core/automerge-tiers.ts:87-119 | a patch of one such file is weak exactly on the grounds its own lines give |
| DiffMeaning.OtherFilesAreNotWeak | src/core/automerge-tiers.ts:105-105 | a patch without such a header never is |
| DiffScan.ConcatenationIsDisjunction | src/core/automerge-tiers.ts:93-103 | for any two line sequences, the answer on both is the disjunction, with the lines before the second's first header counted to the first's last file |
| DiffScan.PatchesAreIndependent | src/core/automerge-tiers.ts:87-119 | patches written one after the other are weak if and only if one of them is |

## Left out

- PemLines.ApartAndShortIsFaithful: states a condition that is simple to check and sufficient; the exact one is `FaithfulByLastMarkers`.
- PullRequests.RetryAfterCommit: the worktree is as it was when the commit was made; what interference in between can do is covered by the theorems over every run.
- PullRequests.EveryRunIsSafe: a run's base is one commit. When `meta.baseSha` is missing the source falls back to the symbolic base branch (src/core/pr-creator.ts:405-408), which may move between attempts.
- PullRequests.PrDesk.CreatePullRequest: models runs whose record is in the database; the meta.json path of older runs is not modelled.
- CopilotPoll.RunCopilotReview: the watchdog timers that bound a single poll are not modelled; a poll is a step that ends.
- KnowledgePromoter.KnowledgeBase.Promote: the database-first promotion path and the event log are not modelled.
- RerunChain.PrepareRerunFromReview: the goal text is represented by its length; the advisory about repeated changes is left out.
- Continuation.DerivedIsWalked: which run a session continues, and whether its work can be carried over, are not modelled; any run with a row may be continued.
- ChainTree.BuildRerunChain: children appear in index order; the locale-dependent sort of siblings and the choice between file and database index are not modelled.
- `.gitignore`, content filters, submodules, unmerged and intent-to-add index entries, and hooks in `git add` and `git commit`; alternates and the commit graph.
- The byte decoder in front of the line redactor, and UTF-8 boundary trimming in the knowledge cap: the cut is an arbitrary position.
- The human override path, the latest-proposal promotion path, archiving and vacuuming of proposals, and the order and wording of audit summaries.
- SHA-256, JSON and YAML text syntax, NFC and NFKC normalisation, slugs, glob matching and the secret and test-marker expressions: opaque functions.
- Auto-merge tiers by path, the merge gate, command policy, maintenance, inbox, metrics and digests: one reading of each settles it.
- The deep walk of Claude events, and Codex event fields other than the chunk scan.
