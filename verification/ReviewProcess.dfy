/**
 * Promoting a run by consensus: proposals and refute votes arrive one by one, and one atomic
 * step evaluates every active eligible proposal and, if the outcome is decisive, promotes.
 */
module ReviewProcess {
  import opened Text
  import opened Bags
  import opened ReviewRules
  import opened RefuteVotes
  import opened Consensus
  import ConsensusMeaning
  import RuleSnapshot

  // ----- the reviewer's decision file -----

  /** The fields of a reviewer's output, as parsed. */
  datatype RawDecision = RawDecision(
    decision: Option<RuleSnapshot.Json>, requiredChanges: Option<RuleSnapshot.Json>,
    nonBlocking: Option<RuleSnapshot.Json>, outOfScope: Option<RuleSnapshot.Json>
  )

  datatype BuiltDecision = BuiltDecision(decision: Decision, changes: seq<string>)

  datatype DecisionError = UnknownDecision | NotStrings | NoChanges

  function DecisionOf(v: Option<RuleSnapshot.Json>): Option<Decision> {
    if v == Some(RuleSnapshot.JStr("approved")) then Some(Approved)
    else if v == Some(RuleSnapshot.JStr("changes_requested")) then Some(ChangesRequested)
    else if v == Some(RuleSnapshot.JStr("rejected")) then Some(Rejected)
    else None
  }

  /** How a decision is spelled. */
  function DecisionText(d: Decision): string {
    match d
    case Approved => "approved"
    case ChangesRequested => "changes_requested"
    case Rejected => "rejected"
    case Pending => "pending"
  }

  function RequireStrings(v: Option<RuleSnapshot.Json>): (r: Result<seq<string>, DecisionError>)
    ensures r.Err? ==> r.error == NotStrings
    ensures r.Ok? ==> v.Some? && v.value == RuleSnapshot.Strings(r.value)
  {
    if v.None? || !v.value.JArr? then Err(NotStrings)
    else
      var strings := RuleSnapshot.StringsOf(v.value.items);
      if strings.None? then Err(NotStrings) else Ok(strings.value)
  }

  /** A reviewer's output becomes a decision only if it is one of the three, and a changes request
      only if it says what to change. */
  function BuildDecision(raw: RawDecision): (r: Result<BuiltDecision, DecisionError>)
    ensures r.Ok? ==> !r.value.decision.Pending? && Actionable(r.value.decision, r.value.changes)
    ensures r.Ok? ==> raw.decision == Some(RuleSnapshot.JStr(DecisionText(r.value.decision)))
    ensures r.Ok? ==> raw.requiredChanges.Some? && raw.requiredChanges.value == RuleSnapshot.Strings(r.value.changes)
    ensures r == Err(NoChanges) ==> raw.decision == Some(RuleSnapshot.JStr("changes_requested"))
  {
    var decision := DecisionOf(raw.decision);
    if decision.None? then Err(UnknownDecision)
    else
      var changes :- RequireStrings(raw.requiredChanges);
      var _ :- RequireStrings(raw.nonBlocking);
      var _ :- RequireStrings(raw.outOfScope);
      if decision.value.ChangesRequested? && changes == [] then Err(NoChanges)
      else Ok(BuiltDecision(decision.value, changes))
  }

  /** Writing a decision out and building it again gives it back; `pending` and a changes request without
      changes are refused. */
  lemma DecisionRoundTrip(d: Decision, changes: seq<string>, comments: seq<string>, suggestions: seq<string>)
    ensures BuildDecision(RawDecision(
        Some(RuleSnapshot.JStr(DecisionText(d))), Some(RuleSnapshot.Strings(changes)),
        Some(RuleSnapshot.Strings(comments)), Some(RuleSnapshot.Strings(suggestions)))) ==
      if d == Pending then Err(UnknownDecision)
      else if d == ChangesRequested && changes == [] then Err(NoChanges)
      else Ok(BuiltDecision(d, changes))
  {
    RuleSnapshot.StringsRoundTrip(changes);
    RuleSnapshot.StringsRoundTrip(comments);
    RuleSnapshot.StringsRoundTrip(suggestions);
    DecisionTextsDiffer();
  }

  lemma DecisionTextsDiffer()
    ensures DecisionOf(Some(RuleSnapshot.JStr("approved"))) == Some(Approved)
    ensures DecisionOf(Some(RuleSnapshot.JStr("changes_requested"))) == Some(ChangesRequested)
    ensures DecisionOf(Some(RuleSnapshot.JStr("rejected"))) == Some(Rejected)
    ensures DecisionOf(Some(RuleSnapshot.JStr("pending"))) == None
  {
    assert "approved"[0] == 'a' && "changes_requested"[0] == 'c' && "rejected"[0] == 'r' && "pending"[0] == 'p';
  }

  predicate Actionable(decision: Decision, changes: seq<string>) {
    decision.ChangesRequested? ==> changes != []
  }

  // ----- rows -----

  datatype Row = Row(
    id: nat, reviewer: string, decision: Decision, changes: seq<string>, reviewedAt: Stamp,
    superseded: bool, processed: bool
  )

  predicate IsOpen(r: Row) {
    !r.superseded && !r.processed
  }

  datatype Status = NeedsReview | Decided(decision: Decision)

  datatype Record = Record(decision: Decision, changes: seq<string>, included: seq<nat>)

  /** One run's review state. */
  datatype Db = Db(status: Status, rows: seq<Row>, votes: seq<Vote>, record: Option<Record>)

  /** The reviewers registry: each reviewer's group, if it has one. */
  type Registry = map<string, Option<string>>

  function GroupOf(groups: Registry, reviewer: string): Option<string> {
    if reviewer in groups then groups[reviewer] else None
  }

  function Enrich(groups: Registry, r: Row): Proposal {
    Proposal(r.id, Some(r.reviewer), GroupOf(groups, r.reviewer), r.decision, r.changes, r.reviewedAt, r.superseded)
  }

  function EnrichAll(groups: Registry, rows: seq<Row>): (ps: seq<Proposal>)
    ensures |ps| == |rows| && forall i :: 0 <= i < |rows| ==> ps[i] == Enrich(groups, rows[i])
  {
    seq(|rows|, i requires 0 <= i < |rows| => Enrich(groups, rows[i]))
  }

  /** A vote's group is its reviewer's group at the time the gate runs. */
  function EnrichVotes(groups: Registry, votes: seq<Vote>): (vs: seq<Vote>)
    ensures |vs| == |votes| && forall i :: 0 <= i < |votes| ==> vs[i] == votes[i].(group := GroupOf(groups, votes[i].reviewer))
  {
    seq(|votes|, i requires 0 <= i < |votes| => votes[i].(group := GroupOf(groups, votes[i].reviewer)))
  }

  ghost function RefutedNow(rule: Rule, groups: Registry, db: Db): set<string> {
    RefutedTargets(rule.refute, EnrichVotes(groups, db.votes))
  }

  // ----- ordering of rows -----

  /** By reviewer, then by proposal id. */
  predicate Before(a: Row, b: Row) {
    TextLess(a.reviewer, b.reviewer) || (a.reviewer == b.reviewer && a.id <= b.id)
  }

  function Sorted(rows: seq<Row>): (s: seq<Row>)
    ensures multiset(s) == multiset(rows)
  {
    Sort(Before, rows)
  }

  lemma BeforeIsTransitive(a: Row, b: Row, c: Row)
    requires Before(a, b) && Before(b, c)
    ensures Before(a, c)
  {
    if TextLess(a.reviewer, b.reviewer) && TextLess(b.reviewer, c.reviewer) {
      TextLessAsymmetric(a.reviewer, b.reviewer);
      NotLessThenLess(a.reviewer, b.reviewer, c.reviewer);
    }
  }

  lemma {:induction false} TextLessTotal(a: string, b: string)
    ensures a == b || TextLess(a, b) || TextLess(b, a)
  {
    if a != "" && b != "" && a[0] == b[0] {
      TextLessTotal(a[1..], b[1..]);
      assert a == [a[0]] + a[1..] && b == [b[0]] + b[1..];
    }
  }

  /** The gate reads rows by reviewer, and by proposal id within a reviewer. */
  lemma SortedIsInOrder(rows: seq<Row>)
    ensures InOrder(Before, Sorted(rows))
    ensures forall i, j :: 0 <= i < j < |rows| && |Sorted(rows)| == |rows| ==>
      var a, b := Sorted(rows)[i], Sorted(rows)[j];
      TextLess(a.reviewer, b.reviewer) || (a.reviewer == b.reviewer && a.id <= b.id)
  {
    forall a: Row, b: Row ensures Before(a, b) || Before(b, a) { TextLessTotal(a.reviewer, b.reviewer); }
    forall a: Row, b: Row, c: Row | Before(a, b) && Before(b, c) ensures Before(a, c) { BeforeIsTransitive(a, b, c); }
    SortIsInOrder(Before, rows);
  }

  // ----- required changes -----

  /** `[...new Set(values)]`: first occurrences, in order. */
  function Dedupe(values: seq<string>): (r: seq<string>)
    ensures Distinct(r)
    ensures forall x :: x in r <==> x in values
  {
    if values == [] then []
    else
      var n := |values| - 1;
      var front := Dedupe(values[..n]);
      assert values == values[..n] + [values[n]];
      if values[n] in front then front else front + [values[n]]
  }

  /** A row's changes, without those a changes request had refuted. */
  function Surviving(hash: ChangeHash, refuted: set<string>, r: Row): seq<string> {
    Filter((c: string) => !r.decision.ChangesRequested? || hash(c) !in refuted, r.changes)
  }

  function AllSurviving(hash: ChangeHash, refuted: set<string>, rows: seq<Row>): seq<string> {
    if rows == [] then []
    else (if rows[0].decision.Approved? then [] else Surviving(hash, refuted, rows[0])) + AllSurviving(hash, refuted, rows[1..])
  }

  function RequiredChanges(hash: ChangeHash, refuted: set<string>, rows: seq<Row>): seq<string> {
    Dedupe(AllSurviving(hash, refuted, rows))
  }

  lemma {:induction false} SurvivingMember(hash: ChangeHash, refuted: set<string>, rows: seq<Row>, change: string)
    ensures change in AllSurviving(hash, refuted, rows) <==>
      exists r :: r in rows && !r.decision.Approved? && change in r.changes &&
        (r.decision.ChangesRequested? ==> hash(change) !in refuted)
    decreases |rows|
  {
    if rows != [] {
      var first, rest := rows[0], rows[1..];
      SurvivingMember(hash, refuted, rest, change);
      FilterMember((c: string) => !first.decision.ChangesRequested? || hash(c) !in refuted, first.changes, change);
      assert rows == [first] + rest;
    }
  }

  // ----- steps -----

  datatype Event =
    | Submit(reviewer: string, decision: Decision, changes: seq<string>, reviewedAt: Stamp, exclusive: bool)
    | Cast(vote: Vote)
    | Process(rule: Rule, groups: Registry, nowMs: Option<int>)

  function Superseding(reviewer: string, r: Row): Row {
    if r.reviewer == reviewer && !r.superseded then r.(superseded := true) else r
  }

  function MapRows(f: Row -> Row, rows: seq<Row>): (s: seq<Row>)
    ensures |s| == |rows| && forall i :: 0 <= i < |rows| ==> s[i] == f(rows[i])
  {
    seq(|rows|, i requires 0 <= i < |rows| => f(rows[i]))
  }

  /** The reviewer already has a row that would be superseded. */
  predicate WouldSupersede(rows: seq<Row>, reviewer: string) {
    exists i :: 0 <= i < |rows| && rows[i].reviewer == reviewer && !rows[i].superseded
  }

  /** An exclusive submission is refused rather than supersede. */
  function Submitted(db: Db, reviewer: string, decision: Decision, changes: seq<string>, at: Stamp, exclusive: bool): Db {
    if db.status != NeedsReview || (exclusive && WouldSupersede(db.rows, reviewer)) then db
    else
      db.(rows := MapRows((r: Row) => Superseding(reviewer, r), db.rows)
                + [Row(|db.rows|, reviewer, decision, changes, at, false, false)])
  }

  /** The open rows the rule admits, in the order the gate reads them. */
  ghost function Candidates(rule: Rule, rows: seq<Row>): seq<Row> {
    Sorted(Filter((r: Row) => IsOpen(r) && Admitted(rule, r.reviewer), rows))
  }

  ghost function Included(rule: Rule, nowMs: Option<int>, groups: Registry, rows: seq<Row>): seq<Row> {
    Filter((r: Row) => !IsStale(rule.stale, nowMs, Enrich(groups, r)), rows)
  }

  function RowIds(rows: seq<Row>): (ids: seq<nat>)
    ensures |ids| == |rows| && forall i :: 0 <= i < |rows| ==> ids[i] == rows[i].id
  {
    seq(|rows|, i requires 0 <= i < |rows| => rows[i].id)
  }

  function MarkProcessed(ids: seq<nat>, r: Row): Row {
    if r.id in ids then r.(processed := true) else r
  }

  /** The consensus over all admitted open proposals at this moment. */
  ghost function ConsensusNow(hash: ChangeHash, rule: Rule, groups: Registry, nowMs: Option<int>, db: Db): Decision {
    Verdict(hash, RefutedNow(rule, groups, db), rule.requirements,
            Active(rule.stale, nowMs, EnrichAll(groups, Candidates(rule, db.rows))))
  }

  ghost predicate Promotes(hash: ChangeHash, rule: Rule, groups: Registry, nowMs: Option<int>, db: Db) {
    && rule.mode.Consensus? && rule.requirements != []
    && db.status == NeedsReview
    && Candidates(rule, db.rows) != []
    && ConsensusNow(hash, rule, groups, nowMs, db) != Pending
  }

  /** The decision record a promotion would write. */
  ghost function RecordNow(hash: ChangeHash, rule: Rule, groups: Registry, nowMs: Option<int>, db: Db): Record {
    var included := Included(rule, nowMs, groups, Candidates(rule, db.rows));
    Record(ConsensusNow(hash, rule, groups, nowMs, db), RequiredChanges(hash, RefutedNow(rule, groups, db), included), RowIds(included))
  }

  /** Decided as recorded, with the included rows marked processed. */
  function WithRecord(db: Db, record: Record): Db {
    Db(Decided(record.decision), MapRows((r: Row) => MarkProcessed(record.included, r), db.rows), db.votes, Some(record))
  }

  ghost function Promoted(hash: ChangeHash, rule: Rule, groups: Registry, nowMs: Option<int>, db: Db): Db {
    WithRecord(db, RecordNow(hash, rule, groups, nowMs, db))
  }

  ghost function Apply(hash: ChangeHash, e: Event, db: Db): Db {
    match e
    case Submit(reviewer, decision, changes, at, exclusive) => Submitted(db, reviewer, decision, changes, at, exclusive)
    case Cast(vote) => db.(votes := db.votes + [vote])
    case Process(rule, groups, nowMs) =>
      if Promotes(hash, rule, groups, nowMs, db) then Promoted(hash, rule, groups, nowMs, db) else db
  }

  ghost function Run(hash: ChangeHash, events: seq<Event>, db: Db): Db {
    if events == [] then db
    else Apply(hash, events[|events| - 1], Run(hash, events[..|events| - 1], db))
  }

  const Fresh := Db(NeedsReview, [], [], None)

  datatype GateError = NotOpenForReview | NoActiveProposals | ConsensusPending

  /** The database rows as the harness changes them. */
  class ReviewDesk {
    const hash: ChangeHash
    var status: Status
    var rows: seq<Row>
    var votes: seq<Vote>
    var record: Option<Record>

    constructor (hash: ChangeHash)
      ensures this.hash == hash && State() == Fresh
    {
      this.hash := hash;
      status, rows, votes, record := NeedsReview, [], [], None;
    }

    ghost function State(): Db
      reads this
    {
      Db(status, rows, votes, record)
    }

    method InsertProposal(reviewer: string, decision: Decision, changes: seq<string>, at: Stamp, exclusive: bool) returns (ok: bool)
      modifies this
      ensures ok <==> old(status) == NeedsReview && !(exclusive && WouldSupersede(old(rows), reviewer))
      ensures State() == Apply(hash, Submit(reviewer, decision, changes, at, exclusive), old(State()))
    {
      if status != NeedsReview {
        return false;
      }
      if exclusive && WouldSupersede(rows, reviewer) {
        return false;
      }
      rows := MapRows((r: Row) => Superseding(reviewer, r), rows) + [Row(|rows|, reviewer, decision, changes, at, false, false)];
      ok := true;
    }

    method InsertVote(vote: Vote)
      modifies this
      ensures State() == Apply(hash, Cast(vote), old(State()))
    {
      votes := votes + [vote];
    }

    method ActiveRows(rule: Rule) returns (active: seq<Row>)
      ensures active == Candidates(rule, rows)
    {
      var frozen := FrozenReviewerIds(rule.requirements);
      var found: seq<Row> := [];
      ghost var keep := (r: Row) => IsOpen(r) && Admitted(rule, r.reviewer);
      for i := 0 to |rows|
        invariant found == Filter(keep, rows[..i])
      {
        assert rows[..i + 1] == rows[..i] + [rows[i]];
        FilterSnoc(keep, rows[..i], rows[i]);
        if IsOpen(rows[i]) && (frozen == {} || rows[i].reviewer in frozen) {
          found := found + [rows[i]];
        }
      }
      assert rows[..|rows|] == rows;
      active := Sorted(found);
    }

    /** The whole gate in one transaction: a refusal leaves no trace. */
    method ProcessConsensus(rule: Rule, groups: Registry, nowMs: Option<int>) returns (r: Result<Decision, GateError>)
      requires rule.mode.Consensus? && rule.requirements != []
      requires forall i :: 0 <= i < |rows| ==> rows[i].id == i
      modifies this
      ensures State() == Apply(hash, Process(rule, groups, nowMs), old(State()))
      ensures r.Ok? <==> Promotes(hash, rule, groups, nowMs, old(State()))
      ensures r.Ok? ==> status == Decided(r.value)
    {
      var gate := EvaluateGate(rule, groups, nowMs);
      if gate.Err? {
        return Err(gate.error);
      }
      record := Some(gate.value);
      status := Decided(gate.value.decision);
      var ids := gate.value.included;
      rows := MapRows((x: Row) => MarkProcessed(ids, x), rows);
      r := Ok(gate.value.decision);
    }

    /** What the gate reads and concludes before anything is written. */
    method EvaluateGate(rule: Rule, groups: Registry, nowMs: Option<int>) returns (r: Result<Record, GateError>)
      requires rule.mode.Consensus? && rule.requirements != []
      requires forall i :: 0 <= i < |rows| ==> rows[i].id == i
      ensures r.Ok? <==> Promotes(hash, rule, groups, nowMs, State())
      ensures r.Ok? ==> r.value == RecordNow(hash, rule, groups, nowMs, State())
    {
      if status != NeedsReview {
        return Err(NotOpenForReview);
      }
      var active := ActiveRows(rule);
      if active == [] {
        return Err(NoActiveProposals);
      }
      var outcome := Evaluate(hash, rule, EnrichAll(groups, active), EnrichVotes(groups, votes), None, nowMs);
      if outcome.status.Pending? {
        return Err(ConsensusPending);
      }
      var included := RowsWithIds(active, Ids(outcome.included));
      IncludedByIds(rule, nowMs, groups, rows, active, included);
      r := Ok(Record(outcome.status, RequiredChanges(hash, outcome.refuted, included), RowIds(included)));
    }
  }

  function RowsWithIds(rows: seq<Row>, ids: seq<int>): seq<Row> {
    Filter((r: Row) => r.id in ids, rows)
  }

  /** Ids identify rows, so filtering by the ids of the fresh proposals is filtering out the stale ones. */
  lemma IncludedByIds(rule: Rule, nowMs: Option<int>, groups: Registry, rows: seq<Row>, active: seq<Row>, included: seq<Row>)
    requires forall i :: 0 <= i < |rows| ==> rows[i].id == i
    requires active == Candidates(rule, rows)
    requires included == RowsWithIds(active, Ids(Active(rule.stale, nowMs, EnrichAll(groups, active))))
    ensures included == Included(rule, nowMs, groups, active)
  {
    var ps := EnrichAll(groups, active);
    var kept := Active(rule.stale, nowMs, ps);
    forall r | r in active
      ensures r.id in Ids(kept) <==> !IsStale(rule.stale, nowMs, Enrich(groups, r))
    {
      var stale := (p: Proposal) => !IsStale(rule.stale, nowMs, p);
      var k :| 0 <= k < |active| && active[k] == r;
      assert ps[k] == Enrich(groups, r);
      FilterMember(stale, ps, Enrich(groups, r));
      if r.id in Ids(kept) {
        var j :| 0 <= j < |kept| && kept[j].id == r.id;
        FilterMember(stale, ps, kept[j]);
        var m :| 0 <= m < |ps| && ps[m] == kept[j];
        CandidateIsRow(rule, rows, active[m]);
        CandidateIsRow(rule, rows, r);
      }
      if !IsStale(rule.stale, nowMs, Enrich(groups, r)) {
        var j :| 0 <= j < |kept| && kept[j] == Enrich(groups, r);
        assert Ids(kept)[j] == r.id;
      }
    }
    SameFilter((r: Row) => r.id in Ids(kept), (r: Row) => !IsStale(rule.stale, nowMs, Enrich(groups, r)), active);
  }

  lemma CandidateIsRow(rule: Rule, rows: seq<Row>, r: Row)
    requires r in Candidates(rule, rows)
    ensures r in rows && IsOpen(r) && Admitted(rule, r.reviewer)
  {
    var keep := (r: Row) => IsOpen(r) && Admitted(rule, r.reviewer);
    SameElements(Sorted(Filter(keep, rows)), Filter(keep, rows));
    FilterMember(keep, rows, r);
  }

  // ----- every run -----

  /** Rows are numbered in order of arrival, each reviewer has at most one row that is not superseded,
      and the run is open exactly while nothing is recorded or processed. */
  ghost predicate Sound(db: Db) {
    && (forall i :: 0 <= i < |db.rows| ==> db.rows[i].id == i)
    && (forall i, j :: 0 <= i < j < |db.rows| && db.rows[i].reviewer == db.rows[j].reviewer ==> db.rows[i].superseded)
    && (db.status == NeedsReview <==> db.record.None?)
    && (db.record.Some? ==> db.record.value.decision != Pending && db.status == Decided(db.record.value.decision))
    && (forall i :: 0 <= i < |db.rows| ==> (db.rows[i].processed <==> db.record.Some? && i in db.record.value.included))
  }

  lemma SubmitKeepsSound(db: Db, reviewer: string, decision: Decision, changes: seq<string>, at: Stamp, exclusive: bool)
    requires Sound(db)
    ensures Sound(Submitted(db, reviewer, decision, changes, at, exclusive))
  {
    if db.status == NeedsReview && !(exclusive && WouldSupersede(db.rows, reviewer)) {
      var after := Submitted(db, reviewer, decision, changes, at, exclusive);
      forall i | 0 <= i < |db.rows|
        ensures after.rows[i] == Superseding(reviewer, db.rows[i])
      {
      }
    }
  }

  lemma PromotionKeepsSound(hash: ChangeHash, rule: Rule, groups: Registry, nowMs: Option<int>, db: Db)
    requires Sound(db) && Promotes(hash, rule, groups, nowMs, db)
    ensures Sound(Promoted(hash, rule, groups, nowMs, db))
  {
    var after := Promoted(hash, rule, groups, nowMs, db);
    var ids := after.record.value.included;
    forall i | 0 <= i < |db.rows|
      ensures after.rows[i] == MarkProcessed(ids, db.rows[i])
    {
    }
  }

  lemma {:induction false} EveryRunIsSound(hash: ChangeHash, events: seq<Event>)
    ensures Sound(Run(hash, events, Fresh))
  {
    if events != [] {
      var before := Run(hash, events[..|events| - 1], Fresh);
      EveryRunIsSound(hash, events[..|events| - 1]);
      match events[|events| - 1]
      case Submit(reviewer, decision, changes, at, exclusive) => SubmitKeepsSound(before, reviewer, decision, changes, at, exclusive);
      case Cast(vote) =>
      case Process(rule, groups, nowMs) =>
        if Promotes(hash, rule, groups, nowMs, before) { PromotionKeepsSound(hash, rule, groups, nowMs, before); }
    }
  }

  /** The run left `needs_review` at event `k`, by a promotion, and nothing has touched its status, its
      proposals or its decision record since. */
  ghost predicate PromotedAt(hash: ChangeHash, events: seq<Event>, k: nat) {
    k < |events| && PromotedFrom(hash, events[k], Run(hash, events[..k], Fresh), Run(hash, events, Fresh))
  }

  predicate SameOutcome(a: Db, b: Db) {
    a.status == b.status && a.rows == b.rows && a.record == b.record
  }

  ghost predicate PromotedFrom(hash: ChangeHash, e: Event, before: Db, now: Db) {
    && e.Process? && Promotes(hash, e.rule, e.groups, e.nowMs, before)
    && SameOutcome(now, Promoted(hash, e.rule, e.groups, e.nowMs, before))
  }

  lemma OutcomeStays(hash: ChangeHash, e: Event, before: Db, now: Db, later: Db)
    requires PromotedFrom(hash, e, before, now) && SameOutcome(later, now)
    ensures PromotedFrom(hash, e, before, later)
  {
  }

  lemma PromotedIsDecided(hash: ChangeHash, e: Event, before: Db, now: Db)
    requires PromotedFrom(hash, e, before, now)
    ensures before.status == NeedsReview && now.status.Decided?
    ensures Apply(hash, e, before).status.Decided?
  {
  }

  lemma StepKeepsDecided(hash: ChangeHash, e: Event, db: Db)
    requires db.status.Decided?
    ensures SameOutcome(Apply(hash, e, db), db)
  {
  }

  lemma {:induction false} SomePromotion(hash: ChangeHash, events: seq<Event>)
    requires Run(hash, events, Fresh).status.Decided?
    ensures exists k: nat :: PromotedAt(hash, events, k)
  {
    var n := |events| - 1;
    if Run(hash, events[..n], Fresh).status.Decided? {
      SomePromotion(hash, events[..n]);
      var k: nat :| PromotedAt(hash, events[..n], k);
      PromotionStays(hash, events, k);
    } else {
      assert PromotedAt(hash, events, n);
    }
  }

  lemma PromotionStays(hash: ChangeHash, events: seq<Event>, k: nat)
    requires events != [] && PromotedAt(hash, events[..|events| - 1], k)
    ensures PromotedAt(hash, events, k)
  {
    var n := |events| - 1;
    var before, now := Run(hash, events[..k], Fresh), Run(hash, events[..n], Fresh);
    assert events[..n][..k] == events[..k];
    PromotedIsDecided(hash, events[k], before, now);
    StepKeepsDecided(hash, events[n], now);
    OutcomeStays(hash, events[k], before, now, Run(hash, events, Fresh));
  }

  /** A decided run was promoted at exactly one event, from the consensus of that moment. */
  lemma DecidedOnce(hash: ChangeHash, events: seq<Event>)
    ensures Run(hash, events, Fresh).status.Decided? <==> exists k: nat :: PromotedAt(hash, events, k)
    ensures forall j: nat, k: nat :: PromotedAt(hash, events, j) && PromotedAt(hash, events, k) ==> j == k
  {
    if Run(hash, events, Fresh).status.Decided? { SomePromotion(hash, events); }
    forall j: nat, k: nat | PromotedAt(hash, events, j) && PromotedAt(hash, events, k)
      ensures j == k
    {
      PromotionsDoNotFollow(hash, events, j, k);
      PromotionsDoNotFollow(hash, events, k, j);
    }
  }

  /** Once decided, decided for good: the status, the proposals and the record are frozen. */
  lemma {:induction false} DecisionIsFinal(hash: ChangeHash, events: seq<Event>, more: seq<Event>)
    requires Run(hash, events, Fresh).status.Decided?
    ensures var a, b := Run(hash, events, Fresh), Run(hash, events + more, Fresh);
      a.status == b.status && a.rows == b.rows && a.record == b.record
    decreases |more|
  {
    if more == [] {
      assert events + more == events;
    } else {
      var n := |more| - 1;
      DecisionIsFinal(hash, events, more[..n]);
      assert (events + more)[..|events + more| - 1] == events + more[..n];
    }
  }

  lemma OpenThenDecided(hash: ChangeHash, events: seq<Event>, k: nat)
    requires PromotedAt(hash, events, k)
    ensures Run(hash, events[..k], Fresh).status == NeedsReview
    ensures Run(hash, events[..k + 1], Fresh).status.Decided?
  {
    assert events[..k + 1][..k] == events[..k];
    PromotedIsDecided(hash, events[k], Run(hash, events[..k], Fresh), Run(hash, events, Fresh));
  }

  lemma DecidedStays(hash: ChangeHash, events: seq<Event>, j: nat, k: nat)
    requires j <= k <= |events| && Run(hash, events[..j], Fresh).status.Decided?
    ensures Run(hash, events[..k], Fresh).status.Decided?
  {
    DecisionIsFinal(hash, events[..j], events[j..k]);
    assert events[..k] == events[..j] + events[j..k];
  }

  lemma PromotionsDoNotFollow(hash: ChangeHash, events: seq<Event>, j: nat, k: nat)
    requires PromotedAt(hash, events, j) && PromotedAt(hash, events, k)
    ensures j >= k
  {
    OpenThenDecided(hash, events, j);
    OpenThenDecided(hash, events, k);
    if j < k { DecidedStays(hash, events, j + 1, k); }
  }

  /** Exactly the admitted, open, fresh proposals are consumed; every other row is untouched. */
  lemma PromotionConsumesIncluded(hash: ChangeHash, rule: Rule, groups: Registry, nowMs: Option<int>, db: Db, i: nat)
    requires Sound(db) && Promotes(hash, rule, groups, nowMs, db) && i < |db.rows|
    ensures var after := Promoted(hash, rule, groups, nowMs, db);
      after.rows[i] ==
        if IsOpen(db.rows[i]) && Admitted(rule, db.rows[i].reviewer) && !IsStale(rule.stale, nowMs, Enrich(groups, db.rows[i]))
        then db.rows[i].(processed := true) else db.rows[i]
  {
    var candidates := Candidates(rule, db.rows);
    var included := Included(rule, nowMs, groups, candidates);
    var current := (r: Row) => !IsStale(rule.stale, nowMs, Enrich(groups, r));
    var r := db.rows[i];
    CandidateRows(rule, db.rows, r);
    FilterMember(current, candidates, r);
    if r in included {
      var k :| 0 <= k < |included| && included[k] == r;
      assert RowIds(included)[k] == i;
    }
    if i in RowIds(included) {
      var k :| 0 <= k < |included| && included[k].id == i;
      FilterMember(current, candidates, included[k]);
      CandidateRows(rule, db.rows, included[k]);
    }
  }

  lemma CandidateRows(rule: Rule, rows: seq<Row>, r: Row)
    ensures r in Candidates(rule, rows) <==> r in rows && IsOpen(r) && Admitted(rule, r.reviewer)
  {
    var keep := (r: Row) => IsOpen(r) && Admitted(rule, r.reviewer);
    SameElements(Sorted(Filter(keep, rows)), Filter(keep, rows));
    FilterMember(keep, rows, r);
  }

  // ----- what a changes request leaves to do -----

  ghost predicate AllActionable(db: Db) {
    forall i :: 0 <= i < |db.rows| ==> Actionable(db.rows[i].decision, db.rows[i].changes)
  }

  predicate SubmitsActionable(e: Event) {
    e.Submit? ==> Actionable(e.decision, e.changes)
  }

  lemma StepKeepsActionable(hash: ChangeHash, e: Event, db: Db)
    requires AllActionable(db) && SubmitsActionable(e)
    ensures AllActionable(Apply(hash, e, db))
  {
    match e
    case Submit(reviewer, decision, changes, at, exclusive) =>
      var after := Submitted(db, reviewer, decision, changes, at, exclusive);
      if db.status == NeedsReview && !(exclusive && WouldSupersede(db.rows, reviewer)) {
        forall i | 0 <= i < |db.rows| ensures after.rows[i] == Superseding(reviewer, db.rows[i]) {}
      }
    case _ =>
  }

  lemma {:induction false} RunKeepsActionable(hash: ChangeHash, events: seq<Event>)
    requires forall k :: 0 <= k < |events| ==> SubmitsActionable(events[k])
    ensures AllActionable(Run(hash, events, Fresh))
  {
    if events != [] {
      var n := |events| - 1;
      RunKeepsActionable(hash, events[..n]);
      StepKeepsActionable(hash, events[n], Run(hash, events[..n], Fresh));
    }
  }

  /** The proposal that blocks a promotion to `changes_requested`. */
  lemma BlockingRow(hash: ChangeHash, rule: Rule, groups: Registry, nowMs: Option<int>, db: Db) returns (r: Row)
    requires Promotes(hash, rule, groups, nowMs, db)
    requires ConsensusNow(hash, rule, groups, nowMs, db) == ChangesRequested
    ensures r in Included(rule, nowMs, groups, Candidates(rule, db.rows)) && r in db.rows
    ensures r.decision.ChangesRequested? && !Lifted(hash, RefutedNow(rule, groups, db), Enrich(groups, r))
  {
    var refuted := RefutedNow(rule, groups, db);
    var candidates := Candidates(rule, db.rows);
    var ps := EnrichAll(groups, candidates);
    var active := Active(rule.stale, nowMs, ps);
    var req :| req in rule.requirements && AnyChanges(hash, refuted, req, active);
    var i :| 0 <= i < |active| && ChangesBlock(hash, refuted, req, active[i]);
    FilterMember((p: Proposal) => !IsStale(rule.stale, nowMs, p), ps, active[i]);
    var k :| 0 <= k < |ps| && ps[k] == active[i];
    r := candidates[k];
    CandidateRows(rule, db.rows, r);
    FilterMember((r: Row) => !IsStale(rule.stale, nowMs, Enrich(groups, r)), candidates, r);
  }

  /** The decision record lists a requested change that was not refuted. */
  ghost predicate HasWork(hash: ChangeHash, record: Option<Record>, refuted: set<string>) {
    && record.Some? && record.value.decision.ChangesRequested?
    && exists c :: c in record.value.changes && hash(c) !in refuted
  }

  lemma PromotedHasWork(hash: ChangeHash, rule: Rule, groups: Registry, nowMs: Option<int>, db: Db)
    requires AllActionable(db) && Promotes(hash, rule, groups, nowMs, db)
    requires ConsensusNow(hash, rule, groups, nowMs, db) == ChangesRequested
    ensures HasWork(hash, Promoted(hash, rule, groups, nowMs, db).record, RefutedNow(rule, groups, db))
  {
    var r := BlockingRow(hash, rule, groups, nowMs, db);
    var refuted := RefutedNow(rule, groups, db);
    var i :| 0 <= i < |r.changes| && hash(r.changes[i]) !in refuted;
    SurvivingMember(hash, refuted, Included(rule, nowMs, groups, Candidates(rule, db.rows)), r.changes[i]);
  }

  /** If every changes request says what to change, a run sent back by consensus carries at least one
      requested change that the votes of that moment had not refuted. */
  lemma SentBackHasWork(hash: ChangeHash, events: seq<Event>, k: nat)
    requires forall j :: 0 <= j < |events| ==> SubmitsActionable(events[j])
    requires PromotedAt(hash, events, k) && Run(hash, events, Fresh).status == Decided(ChangesRequested)
    ensures HasWork(hash, Run(hash, events, Fresh).record, RefutedNow(events[k].rule, events[k].groups, Run(hash, events[..k], Fresh)))
  {
    RunKeepsActionable(hash, events[..k]);
    PromotedHasWork(hash, events[k].rule, events[k].groups, events[k].nowMs, Run(hash, events[..k], Fresh));
  }

  // ----- heard and recorded -----

  /** An open row of a reviewer the rule admits, current, from the requirement's group, that rejects where
      rejections are listed: the consensus is a rejection. */
  lemma RejectionIsHeard(
    hash: ChangeHash, rule: Rule, groups: Registry, nowMs: Option<int>, db: Db, i: nat, req: Requirement)
    requires i < |db.rows| && !db.rows[i].superseded && !db.rows[i].processed && db.rows[i].decision == Rejected
    requires Admitted(rule, db.rows[i].reviewer)
    requires db.rows[i].reviewer in groups && groups[db.rows[i].reviewer] == Some(req.group)
    requires req in rule.requirements && BlockRejected in req.blocking
    requires var r := db.rows[i];
      ConsensusMeaning.IsCurrent(rule.stale, nowMs, Proposal(r.id, Some(r.reviewer), Some(req.group), Rejected, r.changes, r.reviewedAt, false))
    ensures ConsensusNow(hash, rule, groups, nowMs, db) == Rejected
  {
    var r := db.rows[i];
    var candidates := Candidates(rule, db.rows);
    CandidateRows(rule, db.rows, r);
    var k :| 0 <= k < |candidates| && candidates[k] == r;
    var ps := EnrichAll(groups, candidates);
    var active := Active(rule.stale, nowMs, ps);
    assert ps[k] == Enrich(groups, r) && ps[k] in ps;
    ConsensusMeaning.CurrentIsActive(rule.stale, nowMs, ps, ps[k]);
    var j :| 0 <= j < |active| && active[j] == ps[k];
    assert RejectBlocks(req, active[j]);
    assert AnyRejects(req, active);
  }

  /** Within the age limit, when there is one. */
  predicate InTime(stale: Stale, nowMs: Option<int>, at: Stamp) {
    stale.maxAgeHours.Some? ==>
      && at.ms.Some? && nowMs.Some?
      && (stale.maxAgeHours.value.Infinite? ||
          (&& stale.maxAgeHours.value.Finite? && stale.maxAgeHours.value.value >= 0.0
           && (nowMs.value - at.ms.value) as real <= stale.maxAgeHours.value.value * 3_600_000.0))
  }

  /** An open row, in time, of a reviewer the rule admits and the registry puts in the group. */
  ghost predicate Counts(rule: Rule, groups: Registry, nowMs: Option<int>, r: Row, group: string) {
    && !r.superseded && !r.processed && Admitted(rule, r.reviewer)
    && r.reviewer in groups && groups[r.reviewer] == Some(group)
    && InTime(rule.stale, nowMs, r.reviewedAt)
  }

  ghost predicate RowStops(rule: Rule, groups: Registry, nowMs: Option<int>, r: Row, req: Requirement) {
    Counts(rule, groups, nowMs, r, req.group) && r.decision == Rejected && BlockRejected in req.blocking
  }

  ghost predicate RowObjects(hash: ChangeHash, rule: Rule, groups: Registry, nowMs: Option<int>, refuted: set<string>, r: Row, req: Requirement) {
    && Counts(rule, groups, nowMs, r, req.group) && r.decision == ChangesRequested && BlockChanges in req.blocking
    && (r.changes == [] || exists k :: 0 <= k < |r.changes| && hash(r.changes[k]) !in refuted)
  }

  /** A proposal is its row, with the group the registry gives the reviewer. */
  lemma EnrichedFields(groups: Registry, r: Row)
    ensures var p := Enrich(groups, r);
      && p.id == r.id && p.reviewer == Some(r.reviewer) && p.decision == r.decision && p.changes == r.changes
      && p.reviewedAt == r.reviewedAt && p.superseded == r.superseded
      && (forall g :: p.group == Some(g) <==> r.reviewer in groups && groups[r.reviewer] == Some(g))
  {
  }

  ghost function ActiveNow(rule: Rule, groups: Registry, nowMs: Option<int>, db: Db): seq<Proposal> {
    Active(rule.stale, nowMs, EnrichAll(groups, Candidates(rule, db.rows)))
  }

  lemma RowIsActive(rule: Rule, groups: Registry, nowMs: Option<int>, db: Db, r: Row, group: string)
    requires r in db.rows && Counts(rule, groups, nowMs, r, group)
    ensures Enrich(groups, r) in ActiveNow(rule, groups, nowMs, db)
  {
    var candidates := Candidates(rule, db.rows);
    CandidateRows(rule, db.rows, r);
    var k :| 0 <= k < |candidates| && candidates[k] == r;
    var ps := EnrichAll(groups, candidates);
    assert ps[k] == Enrich(groups, r);
    EnrichedFields(groups, r);
    ConsensusMeaning.CurrentIsActive(rule.stale, nowMs, ps, ps[k]);
  }

  lemma ActiveIsRow(rule: Rule, groups: Registry, nowMs: Option<int>, db: Db, p: Proposal, group: string) returns (r: Row)
    requires p in ActiveNow(rule, groups, nowMs, db) && p.group == Some(group)
    ensures r in db.rows && Enrich(groups, r) == p && Counts(rule, groups, nowMs, r, group)
  {
    var candidates := Candidates(rule, db.rows);
    var ps := EnrichAll(groups, candidates);
    ConsensusMeaning.CurrentIsActive(rule.stale, nowMs, ps, p);
    var k :| 0 <= k < |ps| && ps[k] == p;
    r := candidates[k];
    CandidateRows(rule, db.rows, r);
    EnrichedFields(groups, r);
  }

  ghost predicate SomeRowStops(rule: Rule, groups: Registry, nowMs: Option<int>, db: Db) {
    exists r, req :: r in db.rows && req in rule.requirements && RowStops(rule, groups, nowMs, r, req)
  }

  ghost predicate SomeRowObjects(hash: ChangeHash, rule: Rule, groups: Registry, nowMs: Option<int>, db: Db) {
    exists r, req :: r in db.rows && req in rule.requirements && RowObjects(hash, rule, groups, nowMs, RefutedNow(rule, groups, db), r, req)
  }

  lemma StopsByRow(rule: Rule, groups: Registry, nowMs: Option<int>, db: Db)
    ensures ConsensusMeaning.SomeStops(rule.requirements, ActiveNow(rule, groups, nowMs, db)) <==> SomeRowStops(rule, groups, nowMs, db)
  {
    var ps := ActiveNow(rule, groups, nowMs, db);
    if req, p :| req in rule.requirements && p in ps && ConsensusMeaning.Stops(req, p) {
      var r := ActiveIsRow(rule, groups, nowMs, db, p, req.group);
      EnrichedFields(groups, r);
      assert RowStops(rule, groups, nowMs, r, req);
    }
    if r, req :| r in db.rows && req in rule.requirements && RowStops(rule, groups, nowMs, r, req) {
      RowIsActive(rule, groups, nowMs, db, r, req.group);
      EnrichedFields(groups, r);
      assert ConsensusMeaning.Stops(req, Enrich(groups, r));
    }
  }

  lemma ObjectsByRow(hash: ChangeHash, rule: Rule, groups: Registry, nowMs: Option<int>, db: Db)
    ensures ConsensusMeaning.SomeObjects(hash, RefutedNow(rule, groups, db), rule.requirements, ActiveNow(rule, groups, nowMs, db)) <==>
      SomeRowObjects(hash, rule, groups, nowMs, db)
  {
    var ps, refuted := ActiveNow(rule, groups, nowMs, db), RefutedNow(rule, groups, db);
    if req, p :| req in rule.requirements && p in ps && ConsensusMeaning.Objects(hash, refuted, req, p) {
      var r := ActiveIsRow(rule, groups, nowMs, db, p, req.group);
      EnrichedFields(groups, r);
      assert RowObjects(hash, rule, groups, nowMs, refuted, r, req);
    }
    if r, req :| r in db.rows && req in rule.requirements && RowObjects(hash, rule, groups, nowMs, refuted, r, req) {
      RowIsActive(rule, groups, nowMs, db, r, req.group);
      EnrichedFields(groups, r);
      assert ConsensusMeaning.Objects(hash, refuted, req, Enrich(groups, r));
    }
  }

  /** What the consensus over a run's rows is, row by row: a rejection exactly when some counting row stops it;
      short of that a changes request exactly when some counting row has a standing change. */
  lemma ConsensusByRows(hash: ChangeHash, rule: Rule, groups: Registry, nowMs: Option<int>, db: Db)
    ensures ConsensusNow(hash, rule, groups, nowMs, db) == Rejected <==> SomeRowStops(rule, groups, nowMs, db)
    ensures ConsensusNow(hash, rule, groups, nowMs, db) == ChangesRequested <==>
      !SomeRowStops(rule, groups, nowMs, db) && SomeRowObjects(hash, rule, groups, nowMs, db)
  {
    StopsByRow(rule, groups, nowMs, db);
    ObjectsByRow(hash, rule, groups, nowMs, db);
    ConsensusMeaning.VerdictMeans(hash, RefutedNow(rule, groups, db), rule.requirements, ActiveNow(rule, groups, nowMs, db));
  }

  /** A submission that is accepted adds one open row and supersedes that reviewer's rows; nothing else changes. */
  lemma SubmissionMeans(db: Db, reviewer: string, decision: Decision, changes: seq<string>, at: Stamp, exclusive: bool)
    ensures var after := Submitted(db, reviewer, decision, changes, at, exclusive);
      if db.status != NeedsReview || (exclusive && exists i :: 0 <= i < |db.rows| && db.rows[i].reviewer == reviewer && !db.rows[i].superseded)
      then after == db
      else
        && after.status == db.status && after.votes == db.votes && after.record == db.record
        && |after.rows| == |db.rows| + 1
        && after.rows[|db.rows|] == Row(|db.rows|, reviewer, decision, changes, at, false, false)
        && (forall i :: 0 <= i < |db.rows| && db.rows[i].reviewer == reviewer ==> after.rows[i] == db.rows[i].(superseded := true))
        && (forall i :: 0 <= i < |db.rows| && db.rows[i].reviewer != reviewer ==> after.rows[i] == db.rows[i])
  {
  }

  /** The record lists exactly the changes that included proposals which did not approve ask for, except
      those of a changes request that were refuted; and it lists none twice. */
  lemma RecordedChanges(hash: ChangeHash, rule: Rule, groups: Registry, nowMs: Option<int>, db: Db, c: string)
    ensures var record := RecordNow(hash, rule, groups, nowMs, db);
      && Distinct(record.changes)
      && (c in record.changes <==>
            exists r :: r in Included(rule, nowMs, groups, Candidates(rule, db.rows)) && r.decision != Approved && c in r.changes &&
              (r.decision == ChangesRequested ==> hash(c) !in RefutedNow(rule, groups, db)))
  {
    SurvivingMember(hash, RefutedNow(rule, groups, db), Included(rule, nowMs, groups, Candidates(rule, db.rows)), c);
  }

  /** A vote counts with the group its reviewer has in the registry. */
  lemma VotesAreGrouped(groups: Registry, votes: seq<Vote>, i: nat)
    requires i < |votes|
    ensures var v := EnrichVotes(groups, votes)[i];
      && v.reviewer == votes[i].reviewer && v.target == votes[i].target && v.verdict == votes[i].verdict && v.passed == votes[i].passed
      && (votes[i].reviewer in groups ==> v.group == groups[votes[i].reviewer])
      && (votes[i].reviewer !in groups ==> v.group == None)
  {
  }
}
