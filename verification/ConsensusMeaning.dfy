/**
 * What a consensus decision means, spelled out proposal by proposal and vote by vote, without the
 * definitions the evaluation is written with.
 */
module ConsensusMeaning {
  import opened Text
  import opened Bags
  import opened ReviewRules
  import opened RefuteVotes
  import opened Consensus

  // ----- the verdict -----

  predicate Speaks(req: Requirement, p: Proposal) {
    p.group == Some(req.group) && p.reviewer.Some?
  }

  /** A rejection the requirement lists as blocking. */
  predicate Stops(req: Requirement, p: Proposal) {
    Speaks(req, p) && p.decision == Rejected && BlockRejected in req.blocking
  }

  /** A changes request the requirement lists as blocking, with a change that still stands. */
  predicate Objects(hash: ChangeHash, refuted: set<string>, req: Requirement, p: Proposal) {
    && Speaks(req, p) && p.decision == ChangesRequested && BlockChanges in req.blocking
    && (p.changes == [] || exists i :: 0 <= i < |p.changes| && hash(p.changes[i]) !in refuted)
  }

  /** The distinct reviewers of the group that have given a verdict. */
  function Voices(req: Requirement, ps: seq<Proposal>): set<string> {
    set i | 0 <= i < |ps| && Speaks(req, ps[i]) && ps[i].decision != Pending :: ps[i].reviewer.value
  }

  function ApprovalCount(req: Requirement, ps: seq<Proposal>): nat {
    if ps == [] then 0
    else ApprovalCount(req, ps[1..]) + (if Speaks(req, ps[0]) && ps[0].decision == Approved then 1 else 0)
  }

  predicate EnoughApprovals(req: Requirement, n: nat) {
    req.minApprovals.NegInfinite? || (req.minApprovals.Finite? && n as real >= req.minApprovals.value)
  }

  /** At least the minimum of voices, and at least the rate of the group's size, where they are given. */
  predicate EnoughVoices(req: Requirement, n: nat) {
    req.quorum.Some? ==>
      && (req.quorum.value.minParticipants.Some? ==>
            var least := req.quorum.value.minParticipants.value;
            least.Finite? && least.value >= 0.0 && n as real >= least.value)
      && (req.quorum.value.minParticipationRate.Some? ==>
            var rate, size := req.quorum.value.minParticipationRate.value, req.quorum.value.groupSize;
            && rate.Finite? && 0.0 <= rate.value <= 1.0
            && size.Some? && size.value.Finite? && size.value.value > 0.0
            && n as real >= rate.value * size.value.value)
  }

  ghost predicate SomeStops(reqs: seq<Requirement>, ps: seq<Proposal>) {
    exists r, p :: r in reqs && p in ps && Stops(r, p)
  }

  ghost predicate SomeObjects(hash: ChangeHash, refuted: set<string>, reqs: seq<Requirement>, ps: seq<Proposal>) {
    exists r, p :: r in reqs && p in ps && Objects(hash, refuted, r, p)
  }

  ghost predicate AllContent(reqs: seq<Requirement>, ps: seq<Proposal>) {
    forall r :: r in reqs ==> EnoughApprovals(r, ApprovalCount(r, ps)) && EnoughVoices(r, |Voices(r, ps)|)
  }

  lemma QuorumIsVoices(req: Requirement, n: nat)
    ensures QuorumMet(req.quorum, n) <==> EnoughVoices(req, n)
  {
    if req.quorum.Some? && req.quorum.value.minParticipationRate.Some? && req.quorum.value.groupSize.Some? {
      var rate, size := req.quorum.value.minParticipationRate.value, req.quorum.value.groupSize.value;
      if rate.Finite? && size.Finite? && size.value > 0.0 { RateBySize(n as real, size.value, rate.value); }
    }
  }

  lemma RateBySize(n: real, size: real, rate: real)
    requires size > 0.0
    ensures n / size >= rate <==> n >= rate * size
  {
    assert n == (n / size) * size;
    if n / size >= rate { assert (n / size - rate) * size >= 0.0; }
    if n >= rate * size { assert (n - rate * size) / size >= 0.0; assert rate * size / size == rate; }
  }

  lemma {:induction false} ApprovalsCounted(req: Requirement, ps: seq<Proposal>)
    ensures Approvals(req, ps) == ApprovalCount(req, ps)
    decreases |ps|
  {
    if ps != [] {
      var keep := (p: Proposal) => InGroup(req, p) && p.decision.Approved?;
      ApprovalsCounted(req, ps[1..]);
      FilterConcat(keep, [ps[0]], ps[1..]);
      assert ps == [ps[0]] + ps[1..];
      assert [ps[0]][..0] == [];
    }
  }

  lemma ContentIsSatisfied(req: Requirement, ps: seq<Proposal>)
    ensures Satisfied(req, ps) <==> EnoughApprovals(req, ApprovalCount(req, ps)) && EnoughVoices(req, |Voices(req, ps)|)
  {
    ApprovalsCounted(req, ps);
    QuorumIsVoices(req, |Voices(req, ps)|);
    forall x ensures x in Participants(req, ps) <==> x in Voices(req, ps) {
      if x in Participants(req, ps) {
        var p :| p in ps && InGroup(req, p) && !p.decision.Pending? && p.reviewer.value == x;
        var i :| 0 <= i < |ps| && ps[i] == p;
      }
    }
    assert Participants(req, ps) == Voices(req, ps);
  }

  /** Rejected if a listed rejection stops it; else changes requested if a listed changes request with a
      standing change objects; else approved if every requirement has its approvals and its voices; else
      pending. */
  lemma VerdictMeans(hash: ChangeHash, refuted: set<string>, reqs: seq<Requirement>, ps: seq<Proposal>)
    ensures Verdict(hash, refuted, reqs, ps) ==
      if SomeStops(reqs, ps) then Rejected
      else if SomeObjects(hash, refuted, reqs, ps) then ChangesRequested
      else if AllContent(reqs, ps) then Approved
      else Pending
  {
    forall r ensures Satisfied(r, ps) <==> EnoughApprovals(r, ApprovalCount(r, ps)) && EnoughVoices(r, |Voices(r, ps)|) {
      ContentIsSatisfied(r, ps);
    }
    forall r ensures AnyRejects(r, ps) <==> exists p :: p in ps && Stops(r, p) {
      AnyByMembership(hash, refuted, r, ps);
    }
    forall r ensures AnyChanges(hash, refuted, r, ps) <==> exists p :: p in ps && Objects(hash, refuted, r, p) {
      AnyByMembership(hash, refuted, r, ps);
      forall p ensures ChangesBlock(hash, refuted, r, p) <==> Objects(hash, refuted, r, p) {}
    }
    VerdictCases(hash, refuted, reqs, ps);
  }

  lemma VerdictCases(hash: ChangeHash, refuted: set<string>, reqs: seq<Requirement>, ps: seq<Proposal>)
    requires forall r :: AnyRejects(r, ps) <==> exists p :: p in ps && Stops(r, p)
    requires forall r :: AnyChanges(hash, refuted, r, ps) <==> exists p :: p in ps && Objects(hash, refuted, r, p)
    ensures SomeStops(reqs, ps) <==> exists r :: r in reqs && AnyRejects(r, ps)
    ensures SomeObjects(hash, refuted, reqs, ps) <==> exists r :: r in reqs && AnyChanges(hash, refuted, r, ps)
  {
    if SomeStops(reqs, ps) {
      var r, p :| r in reqs && p in ps && Stops(r, p);
      assert AnyRejects(r, ps);
    }
    if SomeObjects(hash, refuted, reqs, ps) {
      var r, p :| r in reqs && p in ps && Objects(hash, refuted, r, p);
      assert AnyChanges(hash, refuted, r, ps);
    }
  }

  /** One voice is not two: a lone approval never satisfies a quorum of two or more. */
  lemma LoneApprovalWaits(hash: ChangeHash, refuted: set<string>, req: Requirement, p: Proposal, least: real)
    requires p.decision == Approved && least > 1.0
    requires req.quorum.Some? && req.quorum.value.minParticipants == Some(Finite(least))
    ensures Verdict(hash, refuted, [req], [p]) == Pending
  {
    VerdictMeans(hash, refuted, [req], [p]);
    var voices := Voices(req, [p]);
    var who := if p.reviewer.Some? then p.reviewer.value else "";
    assert voices <= {who};
    SubsetSize(voices, {who});
    assert req in [req];
  }

  // ----- the latest proposal -----

  /** Text order: at the first difference the smaller character comes first, and a prefix before what it
      starts. */
  lemma {:induction false} TextLessMeans(a: string, b: string)
    ensures TextLess(a, b) <==> exists k :: LessAt(a, b, k)
    decreases |b|
  {
    if a != "" && b != "" && a[0] == b[0] {
      TextLessMeans(a[1..], b[1..]);
      if k :| LessAt(a[1..], b[1..], k) { assert LessAt(a, b, k + 1); }
      if k :| LessAt(a, b, k) { assert LessAt(a[1..], b[1..], k - 1); }
    } else if b != "" {
      if a == "" || a[0] < b[0] { assert LessAt(a, b, 0); }
    }
  }

  predicate LessAt(a: string, b: string, k: int) {
    && 0 <= k <= |a| && k < |b| && (forall i :: 0 <= i < k ==> a[i] == b[i])
    && (k == |a| || a[k] < b[k])
  }

  // ----- staleness -----

  /** A proposal counts unless it is superseded where that matters, or an age limit is set and it is not
      provably within it. */
  predicate IsCurrent(stale: Stale, nowMs: Option<int>, p: Proposal) {
    && !(stale.rejectSuperseded && p.superseded)
    && (stale.maxAgeHours.Some? ==>
          && p.reviewedAt.ms.Some? && nowMs.Some?
          && (stale.maxAgeHours.value.Infinite? ||
              (&& stale.maxAgeHours.value.Finite? && stale.maxAgeHours.value.value >= 0.0
               && (nowMs.value - p.reviewedAt.ms.value) as real <= stale.maxAgeHours.value.value * 3_600_000.0)))
  }

  lemma CurrentIsActive(stale: Stale, nowMs: Option<int>, ps: seq<Proposal>, p: Proposal)
    ensures p in Active(stale, nowMs, ps) <==> p in ps && IsCurrent(stale, nowMs, p)
  {
    FilterMember((q: Proposal) => !IsStale(stale, nowMs, q), ps, p);
    if stale.maxAgeHours.Some? && stale.maxAgeHours.value.Finite? && p.reviewedAt.ms.Some? && nowMs.Some? {
      HoursByMillis((nowMs.value - p.reviewedAt.ms.value) as real, stale.maxAgeHours.value.value);
    }
  }

  lemma HoursByMillis(elapsed: real, hours: real)
    ensures hours < elapsed / HOUR_MS <==> hours * 3_600_000.0 < elapsed
  {
    assert elapsed == (elapsed / HOUR_MS) * HOUR_MS;
  }

  // ----- refutation -----

  predicate Counts(rule: Refute, v: Vote) {
    && v.passed && v.group == Some(rule.group) && v.reviewer in rule.reviewerIds
    && (v.verdict == Uphold || v.verdict == Refutes)
  }

  /** The positions of the votes that count on one change. */
  function Positions(rule: Refute, votes: seq<Vote>, target: string): set<nat> {
    set i: nat | i < |votes| && Counts(rule, votes[i]) && votes[i].target == target
  }

  function Refuting(rule: Refute, votes: seq<Vote>, target: string): set<nat> {
    set i: nat | i < |votes| && Counts(rule, votes[i]) && votes[i].target == target && votes[i].verdict == Refutes
  }

  predicate EnoughVotes(rule: Refute, n: nat) {
    if rule.minParticipants.None? then n >= 1
    else rule.minParticipants.value.NegInfinite? || (rule.minParticipants.value.Finite? && n as real >= rule.minParticipants.value.value)
  }

  /** A change is refuted when votes on it count, no reviewer has two of them, there are enough, and those that
      refute it are more than half of the frozen reviewers. */
  ghost predicate IsRefuted(rule: Refute, votes: seq<Vote>, target: string) {
    var on := Positions(rule, votes, target);
    && on != {} && EnoughVotes(rule, |on|)
    && (forall i, j :: i in on && j in on && i != j ==> votes[i].reviewer != votes[j].reviewer)
    && 2 * |Refuting(rule, votes, target)| > |rule.reviewerIds|
  }

  /** Where a predicate holds. */
  function Where(p: Vote -> bool, votes: seq<Vote>): set<nat> {
    set i: nat | i < |votes| && p(votes[i])
  }

  lemma WhereSnoc(p: Vote -> bool, votes: seq<Vote>, v: Vote)
    ensures Where(p, votes + [v]) == Where(p, votes) + (if p(v) then {|votes|} else {})
  {
    var all := votes + [v];
    assert forall i :: 0 <= i < |votes| ==> all[i] == votes[i];
  }

  lemma {:induction false} VotesByPosition(p: Vote -> bool, votes: seq<Vote>)
    ensures |Filter(p, votes)| == |Where(p, votes)|
  {
    if votes != [] {
      var n := |votes| - 1;
      VotesByPosition(p, votes[..n]);
      WhereSnoc(p, votes[..n], votes[n]);
      assert votes == votes[..n] + [votes[n]];
      assert n !in Where(p, votes[..n]);
    }
  }

  lemma RefutingCounted(rule: Refute, votes: seq<Vote>, target: string)
    ensures |VotesOn(rule, votes, target)| == |Positions(rule, votes, target)|
    ensures Count(VotesOn(rule, votes, target), Refutes) == |Refuting(rule, votes, target)|
  {
    var on := (v: Vote) => Eligible(rule, v) && v.target == target;
    var both := (v: Vote) => Eligible(rule, v) && v.target == target && v.verdict == Refutes;
    VotesByPosition(on, votes);
    assert Positions(rule, votes, target) == Where(on, votes);
    FilterTwice(on, (v: Vote) => v.verdict == Refutes, both, votes);
    VotesByPosition(both, votes);
    assert Refuting(rule, votes, target) == Where(both, votes);
  }

  lemma {:induction false} FilterTwice<T>(p: T -> bool, q: T -> bool, both: T -> bool, s: seq<T>)
    requires forall x :: both(x) <==> p(x) && q(x)
    ensures Filter(q, Filter(p, s)) == Filter(both, s)
    decreases |s|
  {
    if s != [] {
      var n := |s| - 1;
      var front := Filter(p, s[..n]);
      FilterTwice(p, q, both, s[..n]);
      if p(s[n]) {
        FilterSnoc(q, front, s[n]);
      } else {
        assert Filter(p, s) == front + [] == front;
      }
    }
  }

  lemma {:induction false} DistinctByPosition(rule: Refute, votes: seq<Vote>, target: string)
    ensures Distinct(Reviewers(VotesOn(rule, votes, target))) <==>
      forall i, j :: i in Positions(rule, votes, target) && j in Positions(rule, votes, target) && i != j ==> votes[i].reviewer != votes[j].reviewer
    decreases |votes|
  {
    if votes != [] {
      var n := |votes| - 1;
      var front, last := votes[..n], votes[n];
      DistinctByPosition(rule, front, target);
      var before, on := VotesOn(rule, front, target), VotesOn(rule, votes, target);
      var earlier, all := Positions(rule, front, target), Positions(rule, votes, target);
      assert all == earlier + (if Counts(rule, last) && last.target == target then {n} else {});
      assert forall i :: i in earlier ==> front[i] == votes[i];
      if Counts(rule, last) && last.target == target {
        assert on == before + [last];
        assert Reviewers(on) == Reviewers(before) + [last.reviewer];
        ReviewerAmong(rule, front, target, last.reviewer);
        LastIsNew(Reviewers(before), last.reviewer);
      } else {
        assert on == before;
      }
    }
  }

  lemma LastIsNew<T>(a: seq<T>, x: T)
    ensures Distinct(a + [x]) <==> Distinct(a) && x !in a
  {
    var b := a + [x];
    if Distinct(b) {
      assert forall i, j :: 0 <= i < j < |a| ==> b[i] == a[i] && b[j] == a[j];
      forall k | 0 <= k < |a| ensures a[k] != x { assert b[k] == a[k] && b[|a|] == x; }
    }
  }

  lemma ReviewerAmong(rule: Refute, votes: seq<Vote>, target: string, who: string)
    ensures who in Reviewers(VotesOn(rule, votes, target)) <==> exists i :: i in Positions(rule, votes, target) && votes[i].reviewer == who
  {
    var on := VotesOn(rule, votes, target);
    if who in Reviewers(on) {
      var k :| 0 <= k < |on| && on[k].reviewer == who;
      VotesOnMember(rule, votes, target, on[k]);
      var i :| 0 <= i < |votes| && votes[i] == on[k];
      assert i in Positions(rule, votes, target);
    }
    if i :| i in Positions(rule, votes, target) && votes[i].reviewer == who {
      VotesOnMember(rule, votes, target, votes[i]);
      var k :| 0 <= k < |on| && on[k] == votes[i];
      assert Reviewers(on)[k] == who;
    }
  }

  /** The evaluation refutes exactly the changes that are refuted in this sense. */
  lemma RefutedMeans(rule: Option<Refute>, votes: seq<Vote>, target: string)
    ensures target in RefutedTargets(rule, votes) <==> rule.Some? && IsRefuted(rule.value, votes, target)
  {
    if rule.Some? {
      RefutedHasVote(rule.value, votes, target);
      RefutingCounted(rule.value, votes, target);
      DistinctByPosition(rule.value, votes, target);
      var on := Positions(rule.value, votes, target);
      assert on != {} <==> |on| > 0;
    }
  }
}
