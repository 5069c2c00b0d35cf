/**
 * Review consensus: per-group blocking decisions, approvals and quorum, with required changes
 * that a strict majority has refuted taken out of a changes request's blocking power.
 */
module Consensus {
  import opened Text
  import opened Bags
  import opened ReviewRules
  import opened RefuteVotes

  datatype Decision = Pending | Approved | ChangesRequested | Rejected

  /** A timestamp as text, and as milliseconds when it parses. */
  datatype Stamp = Stamp(text: string, ms: Option<int>)

  datatype Proposal = Proposal(
    id: int,
    reviewer: Option<string>,
    group: Option<string>,
    decision: Decision,
    changes: seq<string>,
    reviewedAt: Stamp,
    superseded: bool
  )

  /** How a required change is identified in votes. */
  type ChangeHash = string -> string

  datatype Path = ByOverride | ByLatest | ByBlocking | RequirementsPending | RequirementsMet

  datatype Check = Check(group: string, approvals: nat, participants: nat, quorumMet: bool, blocked: Option<Decision>)

  datatype Outcome = Outcome(
    status: Decision,
    path: Path,
    included: seq<Proposal>,
    refuted: set<string>,
    checks: seq<Check>
  )

  // ----- staleness -----

  const HOUR_MS := 3_600_000.0

  predicate OlderThan(reviewedMs: Option<int>, nowMs: Option<int>, maxAgeHours: Number) {
    || maxAgeHours.NaN? || Less(maxAgeHours, Whole(0))
    || reviewedMs.None? || nowMs.None?
    || Less(maxAgeHours, Finite((nowMs.value - reviewedMs.value) as real / HOUR_MS))
  }

  predicate IsStale(stale: Stale, nowMs: Option<int>, p: Proposal) {
    || (stale.rejectSuperseded && p.superseded)
    || (stale.maxAgeHours.Some? && OlderThan(p.reviewedAt.ms, nowMs, stale.maxAgeHours.value))
  }

  function Active(stale: Stale, nowMs: Option<int>, proposals: seq<Proposal>): seq<Proposal> {
    Filter((p: Proposal) => !IsStale(stale, nowMs, p), proposals)
  }

  // ----- the declarative rule -----

  predicate InGroup(req: Requirement, p: Proposal) {
    p.group == Some(req.group) && p.reviewer.Some?
  }

  /** A changes request is lifted only when it lists changes and every one of them is refuted. */
  predicate Lifted(hash: ChangeHash, refuted: set<string>, p: Proposal) {
    p.changes != [] && forall i :: 0 <= i < |p.changes| ==> hash(p.changes[i]) in refuted
  }

  predicate RejectBlocks(req: Requirement, p: Proposal) {
    InGroup(req, p) && p.decision.Rejected? && BlockRejected in req.blocking
  }

  predicate ChangesBlock(hash: ChangeHash, refuted: set<string>, req: Requirement, p: Proposal) {
    InGroup(req, p) && p.decision.ChangesRequested? && BlockChanges in req.blocking && !Lifted(hash, refuted, p)
  }

  predicate AnyRejects(req: Requirement, ps: seq<Proposal>) {
    exists i :: 0 <= i < |ps| && RejectBlocks(req, ps[i])
  }

  predicate AnyChanges(hash: ChangeHash, refuted: set<string>, req: Requirement, ps: seq<Proposal>) {
    exists i :: 0 <= i < |ps| && ChangesBlock(hash, refuted, req, ps[i])
  }

  function Approvals(req: Requirement, ps: seq<Proposal>): nat {
    |Filter((p: Proposal) => InGroup(req, p) && p.decision.Approved?, ps)|
  }

  /** The distinct reviewers of the group with a verdict. */
  function Participants(req: Requirement, ps: seq<Proposal>): set<string> {
    set p | p in ps && InGroup(req, p) && !p.decision.Pending? :: p.reviewer.value
  }

  predicate QuorumMet(quorum: Option<Quorum>, participants: nat) {
    quorum.None? || (MinMet(quorum.value, participants) && RateMet(quorum.value, participants))
  }

  predicate MinMet(q: Quorum, participants: nat) {
    q.minParticipants.None? ||
    (q.minParticipants.value.Finite? && 0.0 <= q.minParticipants.value.value <= participants as real)
  }

  predicate RateMet(q: Quorum, participants: nat) {
    q.minParticipationRate.None? ||
    (&& q.minParticipationRate.value.Finite? && 0.0 <= q.minParticipationRate.value.value <= 1.0
     && q.groupSize.Some? && q.groupSize.value.Finite? && q.groupSize.value.value > 0.0
     && participants as real / q.groupSize.value.value >= q.minParticipationRate.value.value)
  }

  predicate Satisfied(req: Requirement, ps: seq<Proposal>) {
    AtLeast(Whole(Approvals(req, ps)), req.minApprovals) && QuorumMet(req.quorum, |Participants(req, ps)|)
  }

  /** Rejected beats changes requested beats approved beats pending. */
  ghost function Verdict(hash: ChangeHash, refuted: set<string>, reqs: seq<Requirement>, ps: seq<Proposal>): Decision {
    if exists r :: r in reqs && AnyRejects(r, ps) then Rejected
    else if exists r :: r in reqs && AnyChanges(hash, refuted, r, ps) then ChangesRequested
    else if forall r :: r in reqs ==> Satisfied(r, ps) then Approved
    else Pending
  }

  // ----- latest proposal -----

  /** `a < b` on strings: by character, shorter first. */
  predicate TextLess(a: string, b: string) {
    if b == "" then false
    else if a == "" then true
    else if a[0] != b[0] then a[0] < b[0]
    else TextLess(a[1..], b[1..])
  }

  method PickLatest(ps: seq<Proposal>) returns (best: Option<Proposal>)
    ensures best.None? <==> ps == []
    ensures best.Some? ==> exists k :: 0 <= k < |ps| && best.value == ps[k] && IsLatest(ps, k)
  {
    if ps == [] {
      return None;
    }
    var k := 0;
    TextLessIrreflexive(ps[0].reviewedAt.text);
    for i := 0 to |ps|
      invariant 0 <= k < |ps|
      invariant forall j :: 0 <= j < i ==> !TextLess(ps[k].reviewedAt.text, ps[j].reviewedAt.text)
      invariant forall j :: 0 <= j < k ==> TextLess(ps[j].reviewedAt.text, ps[k].reviewedAt.text)
    {
      if TextLess(ps[k].reviewedAt.text, ps[i].reviewedAt.text) {
        forall j | 0 <= j < i
          ensures TextLess(ps[j].reviewedAt.text, ps[i].reviewedAt.text)
        {
          NotLessThenLess(ps[j].reviewedAt.text, ps[k].reviewedAt.text, ps[i].reviewedAt.text);
        }
        forall j | 0 <= j <= i
          ensures !TextLess(ps[i].reviewedAt.text, ps[j].reviewedAt.text)
        {
          TextLessIrreflexive(ps[i].reviewedAt.text);
          if j < i { TextLessAsymmetric(ps[j].reviewedAt.text, ps[i].reviewedAt.text); }
        }
        k := i;
      }
    }
    best := Some(ps[k]);
    assert IsLatest(ps, k);
  }

  /** No later stamp anywhere, and every earlier proposal is strictly older. */
  predicate IsLatest(ps: seq<Proposal>, k: nat)
    requires k < |ps|
  {
    && (forall j :: 0 <= j < |ps| ==> !TextLess(ps[k].reviewedAt.text, ps[j].reviewedAt.text))
    && (forall j :: 0 <= j < k ==> TextLess(ps[j].reviewedAt.text, ps[k].reviewedAt.text))
  }

  lemma {:induction false} TextLessIrreflexive(a: string)
    ensures !TextLess(a, a)
  {
    if a != "" { TextLessIrreflexive(a[1..]); }
  }

  lemma {:induction false} TextLessAsymmetric(a: string, b: string)
    requires TextLess(a, b)
    ensures !TextLess(b, a)
  {
    if a != "" && a[0] == b[0] { TextLessAsymmetric(a[1..], b[1..]); }
  }

  /** `a <= b < c` gives `a < c`. */
  lemma {:induction false} NotLessThenLess(a: string, b: string, c: string)
    requires !TextLess(b, a) && TextLess(b, c)
    ensures TextLess(a, c)
    decreases |c|
  {
    if a != "" && b != "" && a[0] == c[0] && a[0] == b[0] {
      NotLessThenLess(a[1..], b[1..], c[1..]);
    }
  }

  // ----- the evaluation as the harness runs it -----

  method FilterStale(stale: Stale, nowMs: Option<int>, proposals: seq<Proposal>)
    returns (active: seq<Proposal>, excluded: seq<int>)
    ensures active == Active(stale, nowMs, proposals)
    ensures excluded == Ids(Filter((p: Proposal) => IsStale(stale, nowMs, p), proposals))
  {
    active, excluded := [], [];
    for i := 0 to |proposals|
      invariant active == Active(stale, nowMs, proposals[..i])
      invariant excluded == Ids(Filter((p: Proposal) => IsStale(stale, nowMs, p), proposals[..i]))
    {
      var p := proposals[i];
      assert proposals[..i + 1] == proposals[..i] + [p];
      FilterSnoc((p: Proposal) => !IsStale(stale, nowMs, p), proposals[..i], p);
      FilterSnoc((p: Proposal) => IsStale(stale, nowMs, p), proposals[..i], p);
      if IsStale(stale, nowMs, p) {
        excluded := excluded + [p.id];
      } else {
        active := active + [p];
      }
    }
    assert proposals[..|proposals|] == proposals;
  }

  function Ids(ps: seq<Proposal>): (r: seq<int>)
    ensures |r| == |ps| && forall i :: 0 <= i < |ps| ==> r[i] == ps[i].id
  {
    seq(|ps|, i requires 0 <= i < |ps| => ps[i].id)
  }

  function CheckOf(hash: ChangeHash, refuted: set<string>, req: Requirement, ps: seq<Proposal>): Check {
    Check(req.group, Approvals(req, ps), |Participants(req, ps)|, QuorumMet(req.quorum, |Participants(req, ps)|),
          if AnyRejects(req, ps) then Some(Rejected)
          else if AnyChanges(hash, refuted, req, ps) then Some(ChangesRequested)
          else None)
  }

  /** One pass over the requirements, keeping the strongest blocking decision met so far. */
  method CheckRequirements(hash: ChangeHash, refuted: set<string>, reqs: seq<Requirement>, ps: seq<Proposal>)
    returns (status: Decision, path: Path, checks: seq<Check>)
    ensures status == Verdict(hash, refuted, reqs, ps)
    ensures |checks| == |reqs| && forall i :: 0 <= i < |reqs| ==> checks[i] == CheckOf(hash, refuted, reqs[i], ps)
    ensures path == match status {
      case Approved => RequirementsMet
      case Pending => RequirementsPending
      case _ => ByBlocking }
  {
    var blocking: Option<Decision> := None;
    checks := [];
    for i := 0 to |reqs|
      invariant |checks| == i && forall k :: 0 <= k < i ==> checks[k] == CheckOf(hash, refuted, reqs[k], ps)
      invariant blocking in {None, Some(Rejected), Some(ChangesRequested)}
      invariant blocking == Some(Rejected) <==> exists k :: 0 <= k < i && AnyRejects(reqs[k], ps)
      invariant blocking == None <==> forall k :: 0 <= k < i ==> !AnyRejects(reqs[k], ps) && !AnyChanges(hash, refuted, reqs[k], ps)
    {
      var rejects := AnyRejects(reqs[i], ps);
      var changes := AnyChanges(hash, refuted, reqs[i], ps);
      if rejects {
        blocking := Some(Rejected);
      } else if changes && (blocking == None || blocking == Some(ChangesRequested)) {
        blocking := Some(ChangesRequested);
      }
      checks := checks + [CheckOf(hash, refuted, reqs[i], ps)];
    }
    assert forall r :: r in reqs ==> exists k :: 0 <= k < |reqs| && reqs[k] == r;
    if blocking.Some? {
      assert blocking == Some(ChangesRequested) ==> exists k :: 0 <= k < |reqs| && AnyChanges(hash, refuted, reqs[k], ps);
      return blocking.value, ByBlocking, checks;
    }
    var satisfied := true;
    for i := 0 to |reqs|
      invariant satisfied <==> forall k :: 0 <= k < i ==> Satisfied(reqs[k], ps)
    {
      satisfied := satisfied && AtLeast(Whole(checks[i].approvals), reqs[i].minApprovals) && checks[i].quorumMet;
    }
    if satisfied {
      status, path := Approved, RequirementsMet;
    } else {
      status, path := Pending, RequirementsPending;
    }
  }

  method Evaluate(hash: ChangeHash, rule: Rule, proposals: seq<Proposal>, votes: seq<Vote>, override: Option<Decision>, nowMs: Option<int>)
    returns (r: Outcome)
    requires override != Some(Pending)
    ensures r.included == Active(rule.stale, nowMs, proposals)
    ensures r.refuted == RefutedTargets(rule.refute, votes)
    ensures override.Some? ==> r.status == override.value && r.path == ByOverride
    ensures override.None? && rule.mode.Consensus? && rule.requirements != [] ==>
      r.status == Verdict(hash, r.refuted, rule.requirements, r.included) && r.path !in {ByOverride, ByLatest}
    ensures override.None? && (rule.mode.LatestProposal? || rule.requirements == []) ==>
      && r.path == ByLatest
      && (if r.included == [] then r.status == Pending
          else exists k :: 0 <= k < |r.included| && IsLatest(r.included, k) && r.status == r.included[k].decision)
  {
    var active, excluded := FilterStale(rule.stale, nowMs, proposals);
    var refuted := EvaluateRefutes(rule.refute, votes);
    if override.Some? {
      return Outcome(override.value, ByOverride, active, refuted, []);
    }
    if rule.mode.LatestProposal? || rule.requirements == [] {
      var latest := PickLatest(active);
      return Outcome(if latest.Some? then latest.value.decision else Pending, ByLatest, active, refuted, []);
    }
    var status, path, checks := CheckRequirements(hash, refuted, rule.requirements, active);
    r := Outcome(status, path, active, refuted, checks);
  }

  // ----- order does not matter -----

  lemma SameGroupFacts(hash: ChangeHash, refuted: set<string>, req: Requirement, a: seq<Proposal>, b: seq<Proposal>)
    requires multiset(a) == multiset(b)
    ensures AnyRejects(req, a) <==> AnyRejects(req, b)
    ensures AnyChanges(hash, refuted, req, a) <==> AnyChanges(hash, refuted, req, b)
    ensures Satisfied(req, a) <==> Satisfied(req, b)
  {
    SameElements(a, b);
    FilterPermuted((p: Proposal) => InGroup(req, p) && p.decision.Approved?, a, b);
    assert Participants(req, a) == Participants(req, b);
    AnyByMembership(hash, refuted, req, a);
    AnyByMembership(hash, refuted, req, b);
  }

  lemma AnyByMembership(hash: ChangeHash, refuted: set<string>, req: Requirement, ps: seq<Proposal>)
    ensures AnyRejects(req, ps) <==> exists p :: p in ps && RejectBlocks(req, p)
    ensures AnyChanges(hash, refuted, req, ps) <==> exists p :: p in ps && ChangesBlock(hash, refuted, req, p)
  {
    if AnyRejects(req, ps) {
      var i :| 0 <= i < |ps| && RejectBlocks(req, ps[i]);
      assert ps[i] in ps;
    }
    if AnyChanges(hash, refuted, req, ps) {
      var i :| 0 <= i < |ps| && ChangesBlock(hash, refuted, req, ps[i]);
      assert ps[i] in ps;
    }
  }

  lemma RefutedTargetsPermuted(rule: Option<Refute>, a: seq<Vote>, b: seq<Vote>)
    requires multiset(a) == multiset(b)
    ensures RefutedTargets(rule, a) == RefutedTargets(rule, b)
  {
    if rule.Some? {
      forall t ensures t in RefutedTargets(rule, a) <==> t in RefutedTargets(rule, b) {
        OrderOfVotesIsIrrelevant(rule.value, a, b, t);
        RefutedHasVote(rule.value, a, t);
        RefutedHasVote(rule.value, b, t);
      }
    }
  }

  /** The consensus does not depend on the order of proposals, of votes or of requirements. */
  lemma VerdictIgnoresOrder(
    hash: ChangeHash, rule: Rule, reqs: seq<Requirement>, nowMs: Option<int>,
    a: seq<Proposal>, b: seq<Proposal>, votes: seq<Vote>, votes': seq<Vote>)
    requires multiset(a) == multiset(b) && multiset(votes) == multiset(votes')
    requires forall r :: r in reqs <==> r in rule.requirements
    ensures Verdict(hash, RefutedTargets(rule.refute, votes), rule.requirements, Active(rule.stale, nowMs, a)) ==
            Verdict(hash, RefutedTargets(rule.refute, votes'), reqs, Active(rule.stale, nowMs, b))
  {
    RefutedTargetsPermuted(rule.refute, votes, votes');
    var refuted := RefutedTargets(rule.refute, votes);
    FilterPermuted((p: Proposal) => !IsStale(rule.stale, nowMs, p), a, b);
    var x, y := Active(rule.stale, nowMs, a), Active(rule.stale, nowMs, b);
    forall r ensures
      && (AnyRejects(r, x) <==> AnyRejects(r, y))
      && (AnyChanges(hash, refuted, r, x) <==> AnyChanges(hash, refuted, r, y))
      && (Satisfied(r, x) <==> Satisfied(r, y))
    {
      SameGroupFacts(hash, refuted, r, x, y);
    }
  }

  // ----- approvals only help -----

  lemma MoreParticipantsKeepQuorum(quorum: Option<Quorum>, n: nat, m: nat)
    requires n <= m && QuorumMet(quorum, n)
    ensures QuorumMet(quorum, m)
  {
    if quorum.Some? && quorum.value.minParticipationRate.Some? {
      var size := quorum.value.groupSize.value.value;
      assert n as real / size <= m as real / size by {
        assert (m as real - n as real) / size >= 0.0;
        assert m as real / size - n as real / size == (m as real - n as real) / size;
      }
    }
  }

  lemma ApprovalKeepsSatisfied(req: Requirement, ps: seq<Proposal>, p: Proposal)
    requires p.decision.Approved? && Satisfied(req, ps)
    ensures Satisfied(req, ps + [p])
  {
    FilterSnoc((q: Proposal) => InGroup(req, q) && q.decision.Approved?, ps, p);
    assert Participants(req, ps) <= Participants(req, ps + [p]);
    SubsetSize(Participants(req, ps), Participants(req, ps + [p]));
    MoreParticipantsKeepQuorum(req.quorum, |Participants(req, ps)|, |Participants(req, ps + [p])|);
  }

  /** Adding an approved proposal never undoes an approval. */
  lemma ApprovalNeverUndoes(
    hash: ChangeHash, refuted: set<string>, rule: Rule, nowMs: Option<int>, ps: seq<Proposal>, p: Proposal)
    requires p.decision.Approved?
    requires Verdict(hash, refuted, rule.requirements, Active(rule.stale, nowMs, ps)) == Approved
    ensures Verdict(hash, refuted, rule.requirements, Active(rule.stale, nowMs, ps + [p])) == Approved
  {
    FilterSnoc((q: Proposal) => !IsStale(rule.stale, nowMs, q), ps, p);
    var before, after := Active(rule.stale, nowMs, ps), Active(rule.stale, nowMs, ps + [p]);
    if !IsStale(rule.stale, nowMs, p) {
      assert after == before + [p];
      ApprovalKeepsVerdict(hash, refuted, rule.requirements, before, p);
    } else {
      assert after == before;
    }
  }

  lemma ApprovalKeepsVerdict(hash: ChangeHash, refuted: set<string>, reqs: seq<Requirement>, ps: seq<Proposal>, p: Proposal)
    requires p.decision.Approved? && Verdict(hash, refuted, reqs, ps) == Approved
    ensures Verdict(hash, refuted, reqs, ps + [p]) == Approved
  {
    forall r | r in reqs
      ensures !AnyRejects(r, ps + [p]) && !AnyChanges(hash, refuted, r, ps + [p]) && Satisfied(r, ps + [p])
    {
      ApprovalKeepsSatisfied(r, ps, p);
      ApprovalNeverBlocks(hash, refuted, r, ps, p);
    }
  }

  lemma ApprovalNeverBlocks(hash: ChangeHash, refuted: set<string>, req: Requirement, ps: seq<Proposal>, p: Proposal)
    requires p.decision.Approved? && !AnyRejects(req, ps) && !AnyChanges(hash, refuted, req, ps)
    ensures !AnyRejects(req, ps + [p]) && !AnyChanges(hash, refuted, req, ps + [p])
  {
    forall i | 0 <= i < |ps + [p]|
      ensures !RejectBlocks(req, (ps + [p])[i]) && !ChangesBlock(hash, refuted, req, (ps + [p])[i])
    {
      if i < |ps| { assert (ps + [p])[i] == ps[i]; }
    }
  }

  /** A changes request that its group's rule treats as blocking is passed over, short of a rejection,
      only when it lists changes and every one of them has a refuting majority behind it. */
  lemma PassedOverOnlyIfRefuted(
    hash: ChangeHash, rule: Rule, votes: seq<Vote>, ps: seq<Proposal>, req: Requirement, p: Proposal)
    requires req in rule.requirements && p in ps && InGroup(req, p) && p.decision.ChangesRequested? && BlockChanges in req.blocking
    ensures Verdict(hash, RefutedTargets(rule.refute, votes), rule.requirements, ps) in {Approved, Pending} ==>
      && p.changes != []
      && forall i :: 0 <= i < |p.changes| ==> RefutedByMajority(rule, votes, hash(p.changes[i]))
  {
    var refuted := RefutedTargets(rule.refute, votes);
    AnyByMembership(hash, refuted, req, ps);
    if Verdict(hash, refuted, rule.requirements, ps) in {Approved, Pending} {
      assert !AnyChanges(hash, refuted, req, ps);
      assert Lifted(hash, refuted, p);
      forall i | 0 <= i < |p.changes| ensures RefutedByMajority(rule, votes, hash(p.changes[i])) {
        assert hash(p.changes[i]) in refuted;
        RefutedMeansMajority(rule.refute.value, votes, hash(p.changes[i]));
      }
    }
  }

  ghost predicate RefutedByMajority(rule: Rule, votes: seq<Vote>, target: string) {
    && rule.refute.Some?
    && var on := VotesOn(rule.refute.value, votes, target);
       && Distinct(Reviewers(on))
       && 2 * Count(on, Refutes) > |rule.refute.value.reviewerIds|
       && Count(on, Refutes) > Count(on, Uphold)
       && 2 * Count(on, Uphold) < |rule.refute.value.reviewerIds|
  }
}
