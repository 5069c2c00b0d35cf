/** What a compiled rule says about its profile, and what the rule invariants ask, spelled out in numbers. */
module RuleMeaning {
  import opened Text
  import opened ReviewRules
  import opened RuleSnapshot
  import Consensus
  import ConsensusMeaning

  // ----- from the profile to the rule -----

  /** The compiled requirement says what the profile's does. */
  predicate SaysTheSame(from: ProfileRequirement, req: Requirement) {
    && req.group == from.group && Some(req.minApprovals) == from.minApprovals && req.blocking == from.blocking
    && req.reviewerIds == from.reviewerIds && req.lensAxes == from.lensAxes && req.maxReviewers == from.maxReviewers
    && (from.quorumMin.None? ==> req.quorum.None?)
    && (from.quorumMin.Some? ==>
          && req.quorum.Some? && req.quorum.value.minParticipants == from.quorumMin
          && req.quorum.value.minParticipationRate.None? && req.quorum.value.groupSize.None?)
  }

  lemma {:induction false} CompiledRequirements(reqs: seq<ProfileRequirement>, i: nat)
    requires CompileRequirements(reqs).Ok? && i < |reqs|
    ensures SaysTheSame(reqs[i], CompileRequirements(reqs).value[i])
    decreases |reqs|
  {
    if i > 0 { CompiledRequirements(reqs[1..], i - 1); }
  }

  function ProfileRequirements(p: Profile): seq<ProfileRequirement> {
    if p.requirements.Some? then p.requirements.value else []
  }

  /** A rule that compiles is the profile field by field, with the defaults where the profile is silent. */
  lemma CompiledRuleSaysTheSame(p: Profile, rule: Rule)
    requires Compile(Some(p)) == Ok(rule)
    ensures rule.mode == if p.mode.Some? then p.mode.value else LatestProposal
    ensures rule.maxReviewers == p.maxReviewers && rule.refute == p.refute
    ensures rule.overrides.allowedReviewers == if p.allowedReviewers.Some? then p.allowedReviewers.value else []
    ensures rule.overrides.requireReason == (p.requireReason.Some? ==> p.requireReason.value)
    ensures rule.stale.rejectSuperseded == (p.rejectSuperseded.Some? ==> p.rejectSuperseded.value)
    ensures rule.stale.maxAgeHours == p.maxAgeHours
    ensures |rule.requirements| == |ProfileRequirements(p)|
    ensures forall i :: 0 <= i < |rule.requirements| ==> SaysTheSame(ProfileRequirements(p)[i], rule.requirements[i])
  {
    forall i | 0 <= i < |rule.requirements| ensures SaysTheSame(ProfileRequirements(p)[i], rule.requirements[i]) {
      CompiledRequirements(ProfileRequirements(p), i);
    }
  }

  /** End to end: once a profile lists rejections as blocking for a group, a current rejection from that group
      rejects, under the compiled rule and under the rule read back from its snapshot. */
  lemma ListedRejectionRejects(
    profile: Profile, rule: Rule, i: nat, hash: Consensus.ChangeHash, refuted: set<string>, nowMs: Option<int>,
    ps: seq<Consensus.Proposal>, p: Consensus.Proposal)
    requires Compile(Some(profile)) == Ok(rule) && i < |ProfileRequirements(profile)|
    requires BlockRejected in ProfileRequirements(profile)[i].blocking
    requires p in ps && ConsensusMeaning.IsCurrent(rule.stale, nowMs, p)
    requires p.group == Some(ProfileRequirements(profile)[i].group) && p.reviewer.Some? && p.decision == Consensus.Rejected
    ensures Consensus.Verdict(hash, refuted, rule.requirements, Consensus.Active(rule.stale, nowMs, ps)) == Consensus.Rejected
    ensures Read(Snapshot(rule)).Ok? ==>
      var again := Read(Snapshot(rule)).value;
      Consensus.Verdict(hash, refuted, again.requirements, Consensus.Active(again.stale, nowMs, ps)) == Consensus.Rejected
  {
    CompiledRuleSaysTheSame(profile, rule);
    CompiledRuleReadsBack(Some(profile), rule);
    var active := Consensus.Active(rule.stale, nowMs, ps);
    ConsensusMeaning.CurrentIsActive(rule.stale, nowMs, ps, p);
    ConsensusMeaning.VerdictMeans(hash, refuted, rule.requirements, active);
    var req := rule.requirements[i];
    assert req in rule.requirements && p in active && ConsensusMeaning.Stops(req, p);
  }

  /** How blocking decisions are spelled in a snapshot; nothing else is read as one. */
  lemma BlockingIsSpelled(items: seq<Json>, i: nat)
    requires i < |items|
    ensures var r := ReadBlocking(Some(JArr(items)));
      && (r.Ok? ==> |r.value| == |items|)
      && (r.Ok? && r.value[i] == BlockRejected ==> items[i] == JStr("rejected"))
      && (r.Ok? && r.value[i] == BlockChanges ==> items[i] == JStr("changes_requested"))
      && (items[i] != JStr("rejected") && items[i] != JStr("changes_requested") ==> r.Err?)
  {
  }

  // ----- the invariants in numbers -----

  lemma PositiveCount(n: Number)
    ensures IsPositiveInt(n) <==> exists k: int :: k >= 1 && n == Whole(k)
  {
    if IsPositiveInt(n) {
      assert n == Whole(n.value.Floor);
    }
  }

  /** How many reviewers may be asked: the requirement's own limit, else the rule's. */
  function LimitOf(own: Option<Number>, rule: Rule): Option<Number> {
    if own.Some? then own else rule.maxReviewers
  }

  predicate AtMost(count: nat, limit: Option<Number>) {
    limit.Some? && limit.value.Finite? ==> count as real <= limit.value.value
  }

  function QuorumMin(req: Requirement): Option<Number> {
    if req.quorum.Some? then req.quorum.value.minParticipants else None
  }

  /** More than one reviewer has to agree or take part. */
  predicate WantsSeveral(req: Requirement) {
    || (req.minApprovals.Finite? && req.minApprovals.value > 1.0)
    || (QuorumMin(req).Some? && QuorumMin(req).value.Finite? && QuorumMin(req).value.value > 1.0)
  }

  /** Declared reviewers are within the limit, and enough for the approvals and the quorum asked of them. */
  predicate DeclaresEnough(rule: Rule, req: Requirement) {
    req.reviewerIds.Some? ==>
      var count := |req.reviewerIds.value|;
      && AtMost(count, LimitOf(req.maxReviewers, rule))
      && (req.minApprovals.Finite? ==> req.minApprovals.value <= count as real)
      && (if QuorumMin(req).Some? && QuorumMin(req).value.Finite? then QuorumMin(req).value.value <= count as real else count >= 1)
  }

  predicate RefutersSuffice(rule: Rule, refute: Refute) {
    var count := |refute.reviewerIds|;
    && AtMost(count, LimitOf(refute.maxReviewers, rule))
    && (refute.minParticipants.Some? && refute.minParticipants.value.Finite? ==> refute.minParticipants.value.value <= count as real)
  }

  ghost predicate IsWellTyped(rule: Rule) {
    && (forall i :: 0 <= i < |rule.requirements| ==> WellTyped(rule.requirements[i]))
    && CountOk(rule.maxReviewers) && (rule.refute.Some? ==> RefuteOk(rule.refute.value))
  }

  /** Consensus means having requirements, refutation needs consensus, either all requirements declare
      reviewers or none does, and whoever is declared is few enough and many enough; and, when compiling, a
      requirement that wants several reviewers declares them and their lenses. */
  lemma InvariantsMean(rule: Rule, compiling: bool)
    requires IsWellTyped(rule)
    ensures Invariants(rule, compiling) <==>
      && (rule.mode == Consensus <==> |rule.requirements| > 0)
      && (rule.refute.Some? ==> rule.mode == Consensus && RefutersSuffice(rule, rule.refute.value))
      && (forall i, j :: 0 <= i < |rule.requirements| && 0 <= j < |rule.requirements| ==>
            (rule.requirements[i].reviewerIds.Some? <==> rule.requirements[j].reviewerIds.Some?))
      && (forall i :: 0 <= i < |rule.requirements| ==> DeclaresEnough(rule, rule.requirements[i]))
      && (compiling && rule.mode == Consensus ==> forall i :: 0 <= i < |rule.requirements| && WantsSeveral(rule.requirements[i]) ==>
            rule.requirements[i].reviewerIds.Some? && rule.requirements[i].lensAxes.Some?)
  {
    forall i | 0 <= i < |rule.requirements|
      ensures IsFrozen(rule.requirements[i]) <==> rule.requirements[i].reviewerIds.Some?
      ensures RequirementHolds(rule, rule.requirements[i], compiling) <==>
        && DeclaresEnough(rule, rule.requirements[i])
        && (compiling && rule.mode == Consensus && WantsSeveral(rule.requirements[i]) ==>
              rule.requirements[i].reviewerIds.Some? && rule.requirements[i].lensAxes.Some?)
    {
      RequirementMeans(rule, rule.requirements[i], compiling);
    }
    if rule.refute.Some? { RefutersMean(rule, rule.refute.value); }
    HomogeneousMeans(rule.requirements);
  }

  lemma RequirementMeans(rule: Rule, req: Requirement, compiling: bool)
    requires WellTyped(req) && CountOk(rule.maxReviewers)
    ensures IsFrozen(req) <==> req.reviewerIds.Some?
    ensures RequirementHolds(rule, req, compiling) <==>
      && DeclaresEnough(rule, req)
      && (compiling && rule.mode == Consensus && WantsSeveral(req) ==> req.reviewerIds.Some? && req.lensAxes.Some?)
  {
    assert NeedsMany(req) <==> WantsSeveral(req);
  }

  lemma RefutersMean(rule: Rule, refute: Refute)
    requires RefuteOk(refute) && CountOk(rule.maxReviewers)
    ensures RefuteHolds(rule, refute) <==> RefutersSuffice(rule, refute)
  {
  }

  lemma HomogeneousMeans(reqs: seq<Requirement>)
    ensures Homogeneous(reqs) <==> forall i, j :: 0 <= i < |reqs| && 0 <= j < |reqs| ==> (IsFrozen(reqs[i]) <==> IsFrozen(reqs[j]))
  {
  }

  // ----- reviewer ids -----

  /** A path-safe id is short, not empty, starts with a letter or digit, and can neither leave its directory
      nor hide; and plain words are path-safe. */
  lemma PathSafeMeans(id: string)
    ensures PathSafe(id) ==>
      && 1 <= |id| <= 128 && id[0] != '.' && id[0] != '-' && '/' !in id && '\\' !in id && ' ' !in id && '\0' !in id
      && forall i :: 0 <= i < |id| - 1 && id[i] == '.' ==> id[i + 1] != '.'
    ensures 1 <= |id| <= 128 && (forall i :: 0 <= i < |id| ==> 'a' <= id[i] <= 'z' || 'A' <= id[i] <= 'Z' || '0' <= id[i] <= '9') ==> PathSafe(id)
  {
  }
}
