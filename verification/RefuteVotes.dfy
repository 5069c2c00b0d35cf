/** Strict-majority refutation of single required changes. */
module RefuteVotes {
  import opened Text
  import opened Bags
  import opened ReviewRules

  datatype Ballot = Uphold | Refutes | Inconclusive | NoVerdict

  datatype Vote = Vote(reviewer: string, group: Option<string>, target: string, verdict: Ballot, passed: bool)

  datatype TargetCheck = TargetCheck(participants: nat, refutes: nat, upholds: nat, duplicated: bool, refuted: bool)

  predicate Eligible(rule: Refute, v: Vote) {
    && v.passed && v.group == Some(rule.group) && v.reviewer in rule.reviewerIds
    && (v.verdict.Uphold? || v.verdict.Refutes?)
  }

  /** The eligible votes on one change, in the order cast. */
  function VotesOn(rule: Refute, votes: seq<Vote>, target: string): seq<Vote> {
    Filter((v: Vote) => Eligible(rule, v) && v.target == target, votes)
  }

  lemma VotesOnMember(rule: Refute, votes: seq<Vote>, target: string, v: Vote)
    ensures v in VotesOn(rule, votes, target) <==> v in votes && Eligible(rule, v) && v.target == target
  {
    FilterMember((v: Vote) => Eligible(rule, v) && v.target == target, votes, v);
  }

  function Reviewers(votes: seq<Vote>): (r: seq<string>)
    ensures |r| == |votes| && forall i :: 0 <= i < |votes| ==> r[i] == votes[i].reviewer
  {
    seq(|votes|, i requires 0 <= i < |votes| => votes[i].reviewer)
  }

  function Count(votes: seq<Vote>, verdict: Ballot): nat {
    |Filter((v: Vote) => v.verdict == verdict, votes)|
  }

  predicate EnoughParticipants(rule: Refute, n: nat) {
    AtLeast(Whole(n), if rule.minParticipants.Some? then rule.minParticipants.value else Whole(1))
  }

  /** A change is refuted when no reviewer voted twice on it, enough took part, and the refuting votes
      are more than half of the frozen reviewers. */
  predicate Refuted(rule: Refute, votes: seq<Vote>, target: string) {
    var on := VotesOn(rule, votes, target);
    && on != []
    && Distinct(Reviewers(on))
    && EnoughParticipants(rule, |on|)
    && 2 * Count(on, Refutes) > |rule.reviewerIds|
  }

  ghost function RefutedTargets(rule: Option<Refute>, votes: seq<Vote>): set<string> {
    if rule.None? then {}
    else set v | v in votes && Refuted(rule.value, votes, v.target) :: v.target
  }

  // ----- the evaluation as the harness runs it -----

  /** One reviewer's votes, in a map that remembers insertion order. */
  datatype Entry = Entry(reviewer: string, votes: seq<Vote>)

  function Enter(entries: seq<Entry>, v: Vote): seq<Entry> {
    if entries == [] then [Entry(v.reviewer, [v])]
    else if entries[0].reviewer == v.reviewer then [Entry(v.reviewer, entries[0].votes + [v])] + entries[1..]
    else [entries[0]] + Enter(entries[1..], v)
  }

  function Singles(votes: seq<Vote>): (r: seq<Entry>)
    ensures |r| == |votes| && forall i :: 0 <= i < |votes| ==> r[i] == Entry(votes[i].reviewer, [votes[i]])
  {
    seq(|votes|, i requires 0 <= i < |votes| => Entry(votes[i].reviewer, [votes[i]]))
  }

  predicate SomeoneTwice(entries: seq<Entry>) {
    exists i :: 0 <= i < |entries| && |entries[i].votes| > 1
  }

  lemma {:induction false} EnterNew(entries: seq<Entry>, v: Vote)
    requires forall i :: 0 <= i < |entries| ==> entries[i].reviewer != v.reviewer
    ensures Enter(entries, v) == entries + [Entry(v.reviewer, [v])]
    decreases |entries|
  {
    if entries != [] {
      EnterNew(entries[1..], v);
      assert entries == [entries[0]] + entries[1..];
    }
  }

  lemma {:induction false} EnterAgain(entries: seq<Entry>, v: Vote, k: nat)
    requires k < |entries| && entries[k].reviewer == v.reviewer
    requires forall i :: 0 <= i < |entries| ==> entries[i].votes != []
    ensures SomeoneTwice(Enter(entries, v))
    decreases |entries|
  {
    var after := Enter(entries, v);
    if entries[0].reviewer == v.reviewer {
      assert |after[0].votes| > 1;
    } else {
      EnterAgain(entries[1..], v, k - 1);
      var i :| 0 <= i < |Enter(entries[1..], v)| && |Enter(entries[1..], v)[i].votes| > 1;
      assert after[i + 1] == Enter(entries[1..], v)[i];
    }
  }

  lemma {:induction false} EnterKeepsTwice(entries: seq<Entry>, v: Vote)
    requires SomeoneTwice(entries)
    ensures SomeoneTwice(Enter(entries, v))
    decreases |entries|
  {
    var i :| 0 <= i < |entries| && |entries[i].votes| > 1;
    var after := Enter(entries, v);
    if entries[0].reviewer == v.reviewer {
      assert |after[i].votes| > 1;
    } else if i == 0 {
      assert |after[0].votes| > 1;
    } else {
      assert |entries[1..][i - 1].votes| > 1;
      EnterKeepsTwice(entries[1..], v);
      var j :| 0 <= j < |Enter(entries[1..], v)| && |Enter(entries[1..], v)[j].votes| > 1;
      assert after[j + 1] == Enter(entries[1..], v)[j];
    }
  }

  lemma {:induction false} EnterNonEmpty(entries: seq<Entry>, v: Vote)
    requires forall i :: 0 <= i < |entries| ==> entries[i].votes != []
    ensures forall i :: 0 <= i < |Enter(entries, v)| ==> Enter(entries, v)[i].votes != []
    decreases |entries|
  {
    if entries != [] && entries[0].reviewer != v.reviewer { EnterNonEmpty(entries[1..], v); }
  }

  /** Tally one change's votes: nothing counts once any reviewer has voted twice. */
  method CheckTarget(rule: Refute, on: seq<Vote>) returns (check: TargetCheck)
    ensures check.duplicated <==> !Distinct(Reviewers(on))
    ensures check.refutes == (if check.duplicated then 0 else Count(on, Refutes))
    ensures check.upholds == (if check.duplicated then 0 else Count(on, Uphold))
    ensures check.participants == (if check.duplicated then 0 else |on|)
    ensures check.refuted <==>
      !check.duplicated && EnoughParticipants(rule, |on|) && 2 * Count(on, Refutes) > |rule.reviewerIds|
  {
    var byReviewer: seq<Entry> := [];
    for i := 0 to |on|
      invariant forall k :: 0 <= k < |byReviewer| ==> byReviewer[k].votes != []
      invariant if Distinct(Reviewers(on[..i])) then byReviewer == Singles(on[..i]) else SomeoneTwice(byReviewer)
    {
      TallyStep(on, i, byReviewer);
      byReviewer := Enter(byReviewer, on[i]);
    }
    assert on[..|on|] == on;
    var duplicated := SomeoneTwice(byReviewer);
    var unique := [];
    if !duplicated {
      unique := FirstVotes(byReviewer);
      assert unique == on;
    }
    var refutes, upholds := 0, 0;
    for i := 0 to |unique|
      invariant refutes == Count(unique[..i], Refutes) && upholds == Count(unique[..i], Uphold)
    {
      assert unique[..i + 1][..i] == unique[..i];
      if unique[i].verdict.Refutes? { refutes := refutes + 1; }
      if unique[i].verdict.Uphold? { upholds := upholds + 1; }
    }
    assert unique[..|unique|] == unique;
    check := TargetCheck(|unique|, refutes, upholds, duplicated,
      !duplicated && EnoughParticipants(rule, |unique|) && 2 * refutes > |rule.reviewerIds|);
  }

  function FirstVotes(entries: seq<Entry>): (r: seq<Vote>)
    requires forall i :: 0 <= i < |entries| ==> entries[i].votes != []
    ensures |r| == |entries| && forall i :: 0 <= i < |entries| ==> r[i] == entries[i].votes[0]
  {
    seq(|entries|, i requires 0 <= i < |entries| => entries[i].votes[0])
  }

  lemma TallyStep(on: seq<Vote>, i: nat, byReviewer: seq<Entry>)
    requires i < |on| && (forall k :: 0 <= k < |byReviewer| ==> byReviewer[k].votes != [])
    requires if Distinct(Reviewers(on[..i])) then byReviewer == Singles(on[..i]) else SomeoneTwice(byReviewer)
    ensures forall k :: 0 <= k < |Enter(byReviewer, on[i])| ==> Enter(byReviewer, on[i])[k].votes != []
    ensures if Distinct(Reviewers(on[..i + 1])) then Enter(byReviewer, on[i]) == Singles(on[..i + 1])
            else SomeoneTwice(Enter(byReviewer, on[i]))
  {
    EnterNonEmpty(byReviewer, on[i]);
    var before, after := Reviewers(on[..i]), Reviewers(on[..i + 1]);
    assert after == before + [on[i].reviewer];
    if !Distinct(before) {
      EnterKeepsTwice(byReviewer, on[i]);
      assert !Distinct(after);
    } else if on[i].reviewer in before {
      var k :| 0 <= k < i && before[k] == on[i].reviewer;
      EnterAgain(byReviewer, on[i], k);
      assert after[k] == after[i];
    } else {
      EnterNew(byReviewer, on[i]);
      assert Distinct(after);
    }
  }

  method GroupByTarget(rule: Refute, votes: seq<Vote>) returns (byTarget: map<string, seq<Vote>>)
    ensures forall t :: t in byTarget <==> VotesOn(rule, votes, t) != []
    ensures forall t :: t in byTarget ==> byTarget[t] == VotesOn(rule, votes, t)
  {
    byTarget := map[];
    for i := 0 to |votes|
      invariant forall t :: t in byTarget <==> VotesOn(rule, votes[..i], t) != []
      invariant forall t :: t in byTarget ==> byTarget[t] == VotesOn(rule, votes[..i], t)
    {
      var v := votes[i];
      assert votes[..i + 1][..i] == votes[..i];
      if Eligible(rule, v) {
        var existing := if v.target in byTarget then byTarget[v.target] else [];
        byTarget := byTarget[v.target := existing + [v]];
      }
    }
    assert votes[..|votes|] == votes;
  }

  /** Group the eligible votes by target, then judge each target. */
  method EvaluateRefutes(rule: Option<Refute>, votes: seq<Vote>) returns (refuted: set<string>)
    ensures refuted == RefutedTargets(rule, votes)
  {
    if rule.None? {
      return {};
    }
    var byTarget := GroupByTarget(rule.value, votes);
    refuted := {};
    var left := byTarget.Keys;
    while left != {}
      invariant left <= byTarget.Keys
      invariant forall t :: t in refuted <==> t in byTarget.Keys - left && Refuted(rule.value, votes, t)
      decreases |left|
    {
      var t :| t in left;
      var check := CheckTarget(rule.value, byTarget[t]);
      if check.refuted {
        refuted := refuted + {t};
      }
      left := left - {t};
    }
    forall t ensures t in RefutedTargets(rule, votes) <==> Refuted(rule.value, votes, t) {
      RefutedHasVote(rule.value, votes, t);
    }
  }

  lemma RefutedHasVote(rule: Refute, votes: seq<Vote>, t: string)
    ensures t in RefutedTargets(Some(rule), votes) <==> Refuted(rule, votes, t)
  {
    if Refuted(rule, votes, t) {
      VotesOnMember(rule, votes, t, VotesOn(rule, votes, t)[0]);
    }
  }

  // ----- what a refutation means -----

  lemma {:induction false} CountsAddUp(rule: Refute, on: seq<Vote>)
    requires forall i :: 0 <= i < |on| ==> Eligible(rule, on[i])
    ensures Count(on, Refutes) + Count(on, Uphold) == |on|
  {
    if on != [] { CountsAddUp(rule, on[..|on| - 1]); }
  }

  /** A refuted change has more refutes than upholds, and upholds from fewer than half of the frozen reviewers. */
  lemma RefutedMeansMajority(rule: Refute, votes: seq<Vote>, target: string)
    requires Refuted(rule, votes, target)
    ensures var on := VotesOn(rule, votes, target);
      && Count(on, Refutes) > Count(on, Uphold)
      && 2 * Count(on, Uphold) < |rule.reviewerIds|
  {
    var on := VotesOn(rule, votes, target);
    forall i | 0 <= i < |on| ensures Eligible(rule, on[i]) { VotesOnMember(rule, votes, target, on[i]); }
    CountsAddUp(rule, on);
    DistinctFitsIn(Reviewers(on), rule.reviewerIds);
  }

  /** A second eligible vote by one reviewer on a change, whatever it says, leaves the change standing. */
  lemma SecondVoteVoids(rule: Refute, votes: seq<Vote>, i: nat, j: nat)
    requires i < j < |votes| && Eligible(rule, votes[i]) && Eligible(rule, votes[j])
    requires votes[i].reviewer == votes[j].reviewer && votes[i].target == votes[j].target
    ensures !Refuted(rule, votes, votes[i].target)
  {
    TwoPositions(rule, votes, votes[i].target, i, j);
  }

  lemma {:induction false} TwoPositions(rule: Refute, votes: seq<Vote>, target: string, i: nat, j: nat)
    requires i < j < |votes| && Eligible(rule, votes[i]) && Eligible(rule, votes[j])
    requires votes[i].reviewer == votes[j].reviewer && votes[i].target == votes[j].target == target
    ensures !Distinct(Reviewers(VotesOn(rule, votes, target)))
    decreases |votes|
  {
    var n := |votes| - 1;
    var front := votes[..n];
    var on, before := VotesOn(rule, votes, target), VotesOn(rule, front, target);
    if j < n {
      TwoPositions(rule, front, target, i, j);
      var a, b :| 0 <= a < b < |before| && Reviewers(before)[a] == Reviewers(before)[b];
      assert Reviewers(on)[a] == Reviewers(on)[b];
    } else {
      assert front[i] == votes[i];
      VotesOnMember(rule, front, target, votes[i]);
      var a :| 0 <= a < |before| && before[a] == votes[i];
      assert on == before + [votes[n]];
      assert Reviewers(on)[a] == Reviewers(on)[|before|];
    }
  }

  /** Whether a change is refuted does not depend on the order the votes arrived in. */
  lemma OrderOfVotesIsIrrelevant(rule: Refute, a: seq<Vote>, b: seq<Vote>, target: string)
    requires multiset(a) == multiset(b)
    ensures Refuted(rule, a, target) <==> Refuted(rule, b, target)
  {
    FilterPermuted((v: Vote) => Eligible(rule, v) && v.target == target, a, b);
    var x, y := VotesOn(rule, a, target), VotesOn(rule, b, target);
    FilterPermuted((v: Vote) => v.verdict == Refutes, x, y);
    SameReviewers(x, y);
  }

  lemma SameReviewers(x: seq<Vote>, y: seq<Vote>)
    requires multiset(x) == multiset(y)
    ensures Distinct(Reviewers(x)) <==> Distinct(Reviewers(y))
  {
    SameElements(x, y);
    DistinctSize(Reviewers(x));
    DistinctSize(Reviewers(y));
    ReviewersWithin(x, y);
    ReviewersWithin(y, x);
    assert SetOf(Reviewers(x)) == SetOf(Reviewers(y));
  }

  lemma ReviewersWithin(x: seq<Vote>, y: seq<Vote>)
    requires forall v :: v in x ==> v in y
    ensures SetOf(Reviewers(x)) <= SetOf(Reviewers(y))
  {
    forall r | r in SetOf(Reviewers(x)) ensures r in SetOf(Reviewers(y)) {
      var i :| 0 <= i < |x| && Reviewers(x)[i] == r;
      assert x[i] in y;
      var k :| 0 <= k < |y| && y[k] == x[i];
      assert Reviewers(y)[k] == r;
    }
  }
}
