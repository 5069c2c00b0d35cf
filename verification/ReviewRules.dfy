/** The review rule a run is judged by, and the invariants both of its boundaries enforce. */
module ReviewRules {
  import opened Text

  /** A JavaScript number, exact where it is finite. */
  datatype Number = Finite(value: real) | Infinite | NegInfinite | NaN

  function Whole(n: int): Number {
    Finite(n as real)
  }

  /** `a < b` as JavaScript compares numbers: false whenever a NaN is involved. */
  predicate Less(a: Number, b: Number) {
    match (a, b)
    case (NaN, _) => false
    case (_, NaN) => false
    case (Finite(x), Finite(y)) => x < y
    case (NegInfinite, NegInfinite) => false
    case (NegInfinite, _) => true
    case (_, Infinite) => !a.Infinite?
    case _ => false
  }

  /** `a >= b`, likewise false on NaN. */
  predicate AtLeast(a: Number, b: Number) {
    !a.NaN? && !b.NaN? && !Less(a, b)
  }

  /** `Math.max(a, b)`. */
  function Max(a: Number, b: Number): Number {
    if a.NaN? || b.NaN? then NaN else if Less(a, b) then b else a
  }

  predicate IsPositiveInt(n: Number) {
    n.Finite? && n.value >= 1.0 && n.value.Floor as real == n.value
  }

  datatype Mode = LatestProposal | Consensus

  datatype Blocking = BlockChanges | BlockRejected

  datatype Quorum = Quorum(
    minParticipants: Option<Number>,
    minParticipationRate: Option<Number>,
    groupSize: Option<Number>
  )

  datatype Requirement = Requirement(
    group: string,
    minApprovals: Number,
    blocking: seq<Blocking>,
    quorum: Option<Quorum>,
    reviewerIds: Option<seq<string>>,
    lensAxes: Option<seq<string>>,
    maxReviewers: Option<Number>
  )

  datatype Refute = Refute(
    group: string,
    reviewerIds: seq<string>,
    minParticipants: Option<Number>,
    maxReviewers: Option<Number>
  )

  datatype Overrides = Overrides(allowedReviewers: seq<string>, requireReason: bool)

  datatype Stale = Stale(rejectSuperseded: bool, maxAgeHours: Option<Number>)

  datatype Rule = Rule(
    mode: Mode,
    maxReviewers: Option<Number>,
    refute: Option<Refute>,
    requirements: seq<Requirement>,
    overrides: Overrides,
    stale: Stale
  )

  const DEFAULT_RULE := Rule(LatestProposal, None, None, [], Overrides([], true), Stale(true, None))

  // ----- semantic invariants -----

  function OrElse<T>(a: Option<T>, b: Option<T>): Option<T> {
    if a.Some? then a else b
  }

  predicate IsFrozen(req: Requirement) {
    req.reviewerIds.Some? && req.reviewerIds.value != []
  }

  function QuorumParticipants(req: Requirement): Number {
    if req.quorum.Some? && req.quorum.value.minParticipants.Some? then req.quorum.value.minParticipants.value
    else Whole(1)
  }

  predicate NeedsMany(req: Requirement) {
    Less(Whole(1), req.minApprovals) || Less(Whole(1), QuorumParticipants(req))
  }

  predicate RequirementHolds(rule: Rule, req: Requirement, requireFrozen: bool) {
    && (req.reviewerIds.Some? ==> WithinCap(|req.reviewerIds.value|, OrElse(req.maxReviewers, rule.maxReviewers)))
    && (requireFrozen && rule.mode.Consensus? && NeedsMany(req) ==> req.reviewerIds.Some? && req.lensAxes.Some?)
    && (req.reviewerIds.Some? ==>
          !Less(Whole(|req.reviewerIds.value|), Max(req.minApprovals, QuorumParticipants(req))))
  }

  predicate WithinCap(count: nat, cap: Option<Number>) {
    cap.Some? ==> !Less(cap.value, Whole(count))
  }

  predicate RefuteHolds(rule: Rule, refute: Refute) {
    && WithinCap(|refute.reviewerIds|, OrElse(refute.maxReviewers, rule.maxReviewers))
    && (refute.minParticipants.Some? ==> !Less(Whole(|refute.reviewerIds|), refute.minParticipants.value))
  }

  /** All requirements declare reviewers, or none does. */
  predicate Homogeneous(requirements: seq<Requirement>) {
    || (forall i :: 0 <= i < |requirements| ==> IsFrozen(requirements[i]))
    || (forall i :: 0 <= i < |requirements| ==> !IsFrozen(requirements[i]))
  }

  /** The value-against-value checks shared by the compiler and the snapshot reader. */
  predicate Invariants(rule: Rule, requireFrozen: bool) {
    && (rule.mode.Consensus? <==> rule.requirements != [])
    && (rule.refute.Some? ==> rule.mode.Consensus?)
    && Homogeneous(rule.requirements)
    && (forall i :: 0 <= i < |rule.requirements| ==> RequirementHolds(rule, rule.requirements[i], requireFrozen))
    && (rule.refute.Some? ==> RefuteHolds(rule, rule.refute.value))
  }

  // ----- the frozen reviewer filter -----

  predicate Declares(req: Requirement, reviewer: string) {
    req.reviewerIds.Some? && reviewer in req.reviewerIds.value
  }

  /** Every reviewer some requirement declares. */
  ghost function FrozenIds(requirements: seq<Requirement>): set<string> {
    set i, id | 0 <= i < |requirements| && requirements[i].reviewerIds.Some? &&
                id in requirements[i].reviewerIds.value :: id
  }

  method FrozenReviewerIds(requirements: seq<Requirement>) returns (ids: set<string>)
    ensures ids == FrozenIds(requirements)
  {
    ids := {};
    for i := 0 to |requirements|
      invariant ids == FrozenIds(requirements[..i])
    {
      if requirements[i].reviewerIds.Some? {
        var own := requirements[i].reviewerIds.value;
        for k := 0 to |own|
          invariant ids == FrozenIds(requirements[..i]) + SetOf(own[..k])
        {
          assert own[..k + 1] == own[..k] + [own[k]];
          ids := ids + {own[k]};
        }
        assert own[..|own|] == own;
      }
      FrozenIdsSnoc(requirements, i);
    }
    assert requirements[..|requirements|] == requirements;
  }

  lemma FrozenIdsSnoc(requirements: seq<Requirement>, i: nat)
    requires i < |requirements|
    ensures FrozenIds(requirements[..i + 1]) ==
      FrozenIds(requirements[..i]) +
      (if requirements[i].reviewerIds.Some? then SetOf(requirements[i].reviewerIds.value) else {})
  {
    var all, some := requirements[..i + 1], requirements[..i];
    assert all == some + [requirements[i]];
    forall id | Declares(requirements[i], id) ensures id in FrozenIds(all) { assert all[i] == requirements[i]; }
    forall id | id in FrozenIds(some) ensures id in FrozenIds(all) {
      var k :| 0 <= k < |some| && some[k].reviewerIds.Some? && id in some[k].reviewerIds.value;
      assert all[k] == some[k];
    }
  }

  /** The promote gate's filter: no filter at all unless some reviewer is frozen. */
  ghost predicate Admitted(rule: Rule, reviewer: string) {
    FrozenIds(rule.requirements) != {} ==> reviewer in FrozenIds(rule.requirements)
  }

  /** Under the invariants the filter never drops a declared reviewer, and in a rule with any
      undeclared (group-membership) requirement it drops nobody. */
  lemma FilterDropsNoVerdict(rule: Rule, requireFrozen: bool, i: nat, reviewer: string)
    requires Invariants(rule, requireFrozen) && i < |rule.requirements|
    ensures Declares(rule.requirements[i], reviewer) || !IsFrozen(rule.requirements[i]) ==> Admitted(rule, reviewer)
  {
    if !IsFrozen(rule.requirements[i]) {
      assert forall k :: 0 <= k < |rule.requirements| ==> !IsFrozen(rule.requirements[k]);
    }
  }

  /** With nobody declared anywhere everybody is admitted; otherwise exactly the declared reviewers are. */
  lemma AdmittedMeans(rule: Rule, reviewer: string)
    ensures Admitted(rule, reviewer) <==>
      || (exists i :: 0 <= i < |rule.requirements| && Declares(rule.requirements[i], reviewer))
      || (forall i :: 0 <= i < |rule.requirements| ==> rule.requirements[i].reviewerIds.None? || rule.requirements[i].reviewerIds.value == [])
  {
    if i :| 0 <= i < |rule.requirements| && IsFrozen(rule.requirements[i]) {
      var id := rule.requirements[i].reviewerIds.value[0];
      assert id in rule.requirements[i].reviewerIds.value;
      assert id in FrozenIds(rule.requirements);
    }
    if i :| 0 <= i < |rule.requirements| && Declares(rule.requirements[i], reviewer) {
      assert reviewer in FrozenIds(rule.requirements);
    }
  }

  /** Without the no-mixing gate it would: a blocker outside the declared set is dropped. */
  lemma MixedRuleDropsBlocker()
    ensures
      var declared := Requirement("a", Whole(1), [BlockRejected], None, Some(["x"]), None, None);
      var open := Requirement("b", Whole(1), [BlockRejected], None, None, None, None);
      var rule := DEFAULT_RULE.(mode := Consensus, requirements := [declared, open]);
      !Admitted(rule, "y") && !Invariants(rule, false)
  {
    var declared := Requirement("a", Whole(1), [BlockRejected], None, Some(["x"]), None, None);
    var open := Requirement("b", Whole(1), [BlockRejected], None, None, None, None);
    var reqs := [declared, open];
    assert reqs[0].reviewerIds.Some? && "x" in reqs[0].reviewerIds.value;
    assert "x" in FrozenIds(reqs);
    assert forall i :: 0 <= i < 2 && reqs[i].reviewerIds.Some? ==> "y" !in reqs[i].reviewerIds.value;
    assert IsFrozen(reqs[0]) && !IsFrozen(reqs[1]);
  }
}
