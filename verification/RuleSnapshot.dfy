/**
 * The two boundaries of a review rule: compiling it from a project profile, and reading a
 * persisted snapshot back. Both enforce the same invariants; the theorem is when what the
 * compiler writes is what the reader returns.
 */
module RuleSnapshot {
  import opened Text
  import opened ReviewRules

  datatype Json =
    | JNull
    | JBool(b: bool)
    | JNum(n: real)
    | JStr(s: string)
    | JArr(items: seq<Json>)
    | JObj(fields: map<string, Json>)

  datatype RuleError =
    | NotAnObject | BadMode | BadRequirements | BadGroup | BadCount | BadBlocking | BadRate
    | BadList | UnsafeReviewer | BadOverrides | BadStale | BrokenInvariant

  // ----- reviewer ids -----

  predicate IsIdStart(c: char) {
    'A' <= c <= 'Z' || 'a' <= c <= 'z' || '0' <= c <= '9'
  }

  predicate IsIdChar(c: char) {
    IsIdStart(c) || c == '.' || c == '_' || c == '-'
  }

  predicate PathSafe(id: string) {
    && 1 <= |id| <= 128 && IsIdStart(id[0])
    && (forall i :: 0 <= i < |id| ==> IsIdChar(id[i]))
    && (forall i :: 0 <= i < |id| - 1 ==> !(id[i] == '.' && id[i + 1] == '.'))
  }

  predicate AllPathSafe(ids: seq<string>) {
    forall i :: 0 <= i < |ids| ==> PathSafe(ids[i])
  }

  predicate NoneBlank(values: seq<string>) {
    forall i :: 0 <= i < |values| ==> !IsBlank(values[i])
  }

  lemma PathSafeIsNotBlank(id: string)
    requires PathSafe(id)
    ensures !IsBlank(id)
  {
    assert !IsWhite(id[0]);
  }

  // ----- compiling a profile -----

  datatype ProfileRequirement = ProfileRequirement(
    group: string,
    minApprovals: Option<Number>,
    blocking: seq<Blocking>,
    quorumMin: Option<Number>,
    reviewerIds: Option<seq<string>>,
    lensAxes: Option<seq<string>>,
    maxReviewers: Option<Number>
  )

  datatype Profile = Profile(
    mode: Option<Mode>,
    maxReviewers: Option<Number>,
    refute: Option<Refute>,
    requirements: Option<seq<ProfileRequirement>>,
    allowedReviewers: Option<seq<string>>,
    requireReason: Option<bool>,
    rejectSuperseded: Option<bool>,
    maxAgeHours: Option<Number>
  )

  predicate CountOk(n: Option<Number>) {
    n.Some? ==> IsPositiveInt(n.value)
  }

  predicate ListOk(values: Option<seq<string>>) {
    values.Some? ==> values.value != [] && NoneBlank(values.value) && Distinct(values.value)
  }

  function CompileRequirement(req: ProfileRequirement): (r: Result<Requirement, RuleError>)
    ensures r.Ok? ==> WellTyped(r.value) && r.value.group == req.group
  {
    if req.minApprovals.None? || !IsPositiveInt(req.minApprovals.value) then Err(BadCount)
    else if !CountOk(req.quorumMin) then Err(BadCount)
    else if !ListOk(req.reviewerIds) || !ListOk(req.lensAxes) then Err(BadList)
    else if !CountOk(req.maxReviewers) then Err(BadCount)
    else if IsBlank(req.group) then Err(BadGroup)
    else
      var quorum := if req.quorumMin.Some? then Some(Quorum(req.quorumMin, None, None)) else None;
      Ok(Requirement(req.group, req.minApprovals.value, req.blocking, quorum, req.reviewerIds, req.lensAxes, req.maxReviewers))
  }

  function CompileRequirements(reqs: seq<ProfileRequirement>): (r: Result<seq<Requirement>, RuleError>)
    ensures r.Ok? ==> |r.value| == |reqs| && forall i :: 0 <= i < |r.value| ==> WellTyped(r.value[i])
  {
    if reqs == [] then Ok([])
    else
      var first :- CompileRequirement(reqs[0]);
      var rest :- CompileRequirements(reqs[1..]);
      Ok([first] + rest)
  }

  predicate RefuteOk(refute: Refute) {
    && CountOk(refute.minParticipants) && CountOk(refute.maxReviewers) && !IsBlank(refute.group)
    && ListOk(Some(refute.reviewerIds)) && AllPathSafe(refute.reviewerIds)
  }

  function Or<T>(a: Option<T>, b: T): T {
    if a.Some? then a.value else b
  }

  function Compile(profile: Option<Profile>): (r: Result<Rule, RuleError>) {
    if profile.None? then Ok(DEFAULT_RULE)
    else
      var p := profile.value;
      if !CountOk(p.maxReviewers) then Err(BadCount)
      else
        var requirements :- CompileRequirements(Or(p.requirements, []));
        if p.refute.Some? && !RefuteOk(p.refute.value) then Err(BadList)
        else
          var rule := Rule(
            Or(p.mode, DEFAULT_RULE.mode), p.maxReviewers, p.refute, requirements,
            Overrides(Or(p.allowedReviewers, []), Or(p.requireReason, true)),
            Stale(Or(p.rejectSuperseded, true), p.maxAgeHours));
          if Invariants(rule, true) then Ok(rule) else Err(BrokenInvariant)
  }

  // ----- writing a snapshot -----

  function NumJson(n: Number): Json {
    if n.Finite? then JNum(n.value) else JNull
  }

  function Strings(values: seq<string>): (r: Json)
    ensures r.JArr? && |r.items| == |values| && forall i :: 0 <= i < |values| ==> r.items[i] == JStr(values[i])
  {
    JArr(seq(|values|, i requires 0 <= i < |values| => JStr(values[i])))
  }

  function BlockingJson(b: Blocking): Json {
    match b
    case BlockChanges => JStr("changes_requested")
    case BlockRejected => JStr("rejected")
  }

  /** A property is only written when it is defined. */
  function With(m: map<string, Json>, key: string, value: Option<Json>): (r: map<string, Json>)
    ensures forall k :: Lookup(r, k) == if k == key && value.Some? then value else Lookup(m, k)
  {
    if value.Some? then m[key := value.value] else m
  }

  function NumProperty(n: Option<Number>): Option<Json> {
    if n.Some? then Some(NumJson(n.value)) else None
  }

  function ListProperty(values: Option<seq<string>>): Option<Json> {
    if values.Some? then Some(Strings(values.value)) else None
  }

  function QuorumJson(q: Quorum): Json {
    JObj(With(With(With(map[],
      "minParticipants", NumProperty(q.minParticipants)),
      "minParticipationRate", NumProperty(q.minParticipationRate)),
      "groupSize", NumProperty(q.groupSize)))
  }

  function BlockingList(bs: seq<Blocking>): (r: Json)
    ensures r.JArr? && |r.items| == |bs| && forall i :: 0 <= i < |bs| ==> r.items[i] == BlockingJson(bs[i])
  {
    JArr(seq(|bs|, i requires 0 <= i < |bs| => BlockingJson(bs[i])))
  }

  function RequirementJson(req: Requirement): Json {
    JObj(With(With(With(With(
      map["group" := JStr(req.group), "minApprovals" := NumJson(req.minApprovals),
          "blockingDecisions" := BlockingList(req.blocking)],
      "quorum", if req.quorum.Some? then Some(QuorumJson(req.quorum.value)) else None),
      "reviewerIds", ListProperty(req.reviewerIds)),
      "lensAxes", ListProperty(req.lensAxes)),
      "maxReviewers", NumProperty(req.maxReviewers)))
  }

  function RefuteJson(refute: Refute): Json {
    JObj(With(With(map["group" := JStr(refute.group), "reviewerIds" := Strings(refute.reviewerIds)],
      "minParticipants", NumProperty(refute.minParticipants)),
      "maxReviewers", NumProperty(refute.maxReviewers)))
  }

  function RequirementList(reqs: seq<Requirement>): (r: Json)
    ensures r.JArr? && |r.items| == |reqs| && forall i :: 0 <= i < |reqs| ==> r.items[i] == RequirementJson(reqs[i])
  {
    JArr(seq(|reqs|, i requires 0 <= i < |reqs| => RequirementJson(reqs[i])))
  }

  function StaleJson(stale: Stale): Json {
    JObj(With(map["rejectSuperseded" := JBool(stale.rejectSuperseded)], "maxAgeHours", NumProperty(stale.maxAgeHours)))
  }

  function OverridesJson(o: Overrides): Json {
    JObj(map["allowedReviewers" := Strings(o.allowedReviewers), "requireReason" := JBool(o.requireReason)])
  }

  function Snapshot(rule: Rule): Json {
    JObj(With(With(
      map["mode" := JStr(if rule.mode.Consensus? then "consensus" else "latest-proposal"),
          "requirements" := RequirementList(rule.requirements),
          "overrides" := OverridesJson(rule.overrides),
          "staleProposal" := StaleJson(rule.stale)],
      "maxReviewers", NumProperty(rule.maxReviewers)),
      "refute", if rule.refute.Some? then Some(RefuteJson(rule.refute.value)) else None))
  }

  // ----- reading a snapshot -----

  function ReadCount(v: Option<Json>): (r: Result<Option<Number>, RuleError>)
    ensures r.Ok? ==> CountOk(r.value) && (r.value.Some? <==> v.Some?)
  {
    if v.None? then Ok(None)
    else if v.value.JNum? && IsPositiveInt(Finite(v.value.n)) then Ok(Some(Finite(v.value.n)))
    else Err(BadCount)
  }

  function StringsOf(items: seq<Json>): (r: Option<seq<string>>)
    ensures r.Some? <==> forall i :: 0 <= i < |items| ==> items[i].JStr?
    ensures r.Some? ==> |r.value| == |items| && forall i :: 0 <= i < |items| ==> items[i] == JStr(r.value[i])
  {
    if items == [] then Some([])
    else
      var rest := StringsOf(items[1..]);
      if items[0].JStr? && rest.Some? then Some([items[0].s] + rest.value) else None
  }

  /** Strings, none blank, none twice. */
  function ReadStrings(v: Json): (r: Result<seq<string>, RuleError>)
    ensures r.Ok? ==> NoneBlank(r.value) && Distinct(r.value)
  {
    if !v.JArr? then Err(BadList)
    else
      var values := StringsOf(v.items);
      if values.Some? && NoneBlank(values.value) && Distinct(values.value) then Ok(values.value) else Err(BadList)
  }

  /** The same check as the reader runs it: one loop with a growing set of what was seen. */
  method ValidateStrings(items: seq<Json>) returns (r: Result<seq<string>, RuleError>)
    ensures r == ReadStrings(JArr(items))
  {
    var seen: set<string> := {};
    var values: seq<string> := [];
    for i := 0 to |items|
      invariant |values| == i && forall k :: 0 <= k < i ==> items[k] == JStr(values[k])
      invariant NoneBlank(values) && Distinct(values)
      invariant seen == SetOf(values)
    {
      if !items[i].JStr? || IsBlank(items[i].s) {
        return Err(BadList);
      }
      if items[i].s in seen {
        assert exists k :: 0 <= k < i && items[k] == items[i];
        return Err(BadList);
      }
      seen := seen + {items[i].s};
      values := values + [items[i].s];
    }
    assert StringsOf(items).value == values;
    return Ok(values);
  }

  function ReadList(v: Option<Json>): (r: Result<Option<seq<string>>, RuleError>)
    ensures r.Ok? ==> ListOk(r.value)
  {
    if v.None? then Ok(None)
    else
      var values :- ReadStrings(v.value);
      if values == [] then Err(BadList) else Ok(Some(values))
  }

  function ReadReviewers(v: Option<Json>): (r: Result<Option<seq<string>>, RuleError>)
    ensures r.Ok? && r.value.Some? ==> ListOk(r.value) && AllPathSafe(r.value.value)
  {
    var ids :- ReadList(v);
    if ids.Some? && !AllPathSafe(ids.value) then Err(UnsafeReviewer) else Ok(ids)
  }

  function ReadGroup(v: Option<Json>): (r: Result<string, RuleError>)
    ensures r.Ok? ==> !IsBlank(r.value)
  {
    if v.Some? && v.value.JStr? && !IsBlank(v.value.s) then Ok(v.value.s) else Err(BadGroup)
  }

  function BlockingOf(items: seq<Json>): (r: Option<seq<Blocking>>)
    ensures r.Some? ==> |r.value| == |items| && forall i :: 0 <= i < |items| ==> items[i] == BlockingJson(r.value[i])
  {
    if items == [] then Some([])
    else
      var rest := BlockingOf(items[1..]);
      if rest.None? then None
      else if items[0] == BlockingJson(BlockChanges) then Some([BlockChanges] + rest.value)
      else if items[0] == BlockingJson(BlockRejected) then Some([BlockRejected] + rest.value)
      else None
  }

  function ReadBlocking(v: Option<Json>): (r: Result<seq<Blocking>, RuleError>) {
    if v.Some? && v.value.JArr? && BlockingOf(v.value.items).Some? then Ok(BlockingOf(v.value.items).value)
    else Err(BadBlocking)
  }

  function ReadRate(v: Option<Json>): (r: Result<Option<Number>, RuleError>)
    ensures r.Ok? ==> RateOk(r.value)
  {
    if v.None? then Ok(None)
    else if v.value.JNum? && 0.0 <= v.value.n <= 1.0 then Ok(Some(Finite(v.value.n)))
    else Err(BadRate)
  }

  function ReadQuorum(v: Option<Json>): (r: Result<Option<Quorum>, RuleError>)
    ensures r.Ok? && r.value.Some? ==> QuorumOk(r.value.value)
  {
    if v.None? then Ok(None)
    else if !v.value.JObj? then Err(NotAnObject)
    else
      var f := v.value.fields;
      var minParticipants :- ReadCount(Lookup(f, "minParticipants"));
      var groupSize :- ReadCount(Lookup(f, "groupSize"));
      var rate :- ReadRate(Lookup(f, "minParticipationRate"));
      Ok(Some(Quorum(minParticipants, rate, groupSize)))
  }

  function ReadRequirement(v: Json): (r: Result<Requirement, RuleError>)
    ensures r.Ok? ==> WellTyped(r.value) && ReviewersSafe(r.value)
  {
    if !v.JObj? then Err(NotAnObject)
    else
      var f := v.fields;
      var group :- ReadGroup(Lookup(f, "group"));
      var minApprovals :- ReadCount(Lookup(f, "minApprovals"));
      if minApprovals.None? then Err(BadCount)
      else
        var blocking :- ReadBlocking(Lookup(f, "blockingDecisions"));
        var quorum :- ReadQuorum(Lookup(f, "quorum"));
        var reviewerIds :- ReadReviewers(Lookup(f, "reviewerIds"));
        var lensAxes :- ReadList(Lookup(f, "lensAxes"));
        var maxReviewers :- ReadCount(Lookup(f, "maxReviewers"));
        Ok(Requirement(group, minApprovals.value, blocking, quorum, reviewerIds, lensAxes, maxReviewers))
  }

  /** `items.map(f)` where `f` may refuse. */
  function ReadAll<T>(f: Json -> Result<T, RuleError>, items: seq<Json>): (r: Result<seq<T>, RuleError>) {
    if items == [] then Ok([])
    else
      var first :- f(items[0]);
      var rest :- ReadAll(f, items[1..]);
      Ok([first] + rest)
  }

  function ReadRefute(v: Option<Json>): (r: Result<Option<Refute>, RuleError>)
    ensures r.Ok? && r.value.Some? ==> RefuteOk(r.value.value)
  {
    if v.None? then Ok(None)
    else if !v.value.JObj? then Err(NotAnObject)
    else
      var f := v.value.fields;
      var group :- ReadGroup(Lookup(f, "group"));
      var reviewerIds :- ReadReviewers(Lookup(f, "reviewerIds"));
      if reviewerIds.None? then Err(BadList)
      else
        var minParticipants :- ReadCount(Lookup(f, "minParticipants"));
        var maxReviewers :- ReadCount(Lookup(f, "maxReviewers"));
        Ok(Some(Refute(group, reviewerIds.value, minParticipants, maxReviewers)))
  }

  function ReadBool(v: Option<Json>, e: RuleError): (r: Result<bool, RuleError>) {
    if v.Some? && v.value.JBool? then Ok(v.value.b) else Err(e)
  }

  function ReadOverrides(v: Option<Json>): (r: Result<Overrides, RuleError>)
    ensures r.Ok? ==> OverridesSafe(r.value)
  {
    if v.None? || !v.value.JObj? then Err(NotAnObject)
    else
      var f := v.value.fields;
      var ids :- if "allowedReviewers" in f then ReadStrings(f["allowedReviewers"]) else Err(BadOverrides);
      if !AllPathSafe(ids) then Err(UnsafeReviewer)
      else
        var requireReason :- ReadBool(Lookup(f, "requireReason"), BadOverrides);
        Ok(Overrides(ids, requireReason))
  }

  function ReadAge(v: Option<Json>): (r: Result<Option<Number>, RuleError>) {
    if v.None? then Ok(None)
    else if v.value.JNum? && v.value.n > 0.0 then Ok(Some(Finite(v.value.n)))
    else Err(BadStale)
  }

  function ReadStale(v: Option<Json>): (r: Result<Stale, RuleError>)
    ensures r.Ok? ==> AgeUsable(r.value)
  {
    if v.None? || !v.value.JObj? then Err(NotAnObject)
    else
      var rejectSuperseded :- ReadBool(Lookup(v.value.fields, "rejectSuperseded"), BadStale);
      var age :- ReadAge(Lookup(v.value.fields, "maxAgeHours"));
      Ok(Stale(rejectSuperseded, age))
  }

  function ReadMode(v: Option<Json>): (r: Result<Mode, RuleError>) {
    if v == Some(JStr("consensus")) then Ok(Consensus)
    else if v == Some(JStr("latest-proposal")) then Ok(LatestProposal)
    else Err(BadMode)
  }

  function ReadRequirementList(v: Option<Json>): (r: Result<seq<Requirement>, RuleError>) {
    if v.Some? && v.value.JArr? then ReadAll(ReadRequirement, v.value.items) else Err(BadRequirements)
  }

  /** The parts, in the order they are checked, and then the invariants that relate them. */
  function Assemble(
    mode: Result<Mode, RuleError>, requirements: Result<seq<Requirement>, RuleError>,
    refute: Result<Option<Refute>, RuleError>, overrides: Result<Overrides, RuleError>,
    stale: Result<Stale, RuleError>, maxReviewers: Result<Option<Number>, RuleError>
  ): (r: Result<Rule, RuleError>)
    ensures r.Ok? ==> Invariants(r.value, false)
  {
    var m :- mode;
    var reqs :- requirements;
    var ref :- refute;
    var over :- overrides;
    var age :- stale;
    var cap :- maxReviewers;
    var rule := Rule(m, cap, ref, reqs, over, age);
    if Invariants(rule, false) then Ok(rule) else Err(BrokenInvariant)
  }

  function Read(v: Json): (r: Result<Rule, RuleError>)
    ensures r.Ok? ==> Invariants(r.value, false)
  {
    if !v.JObj? then Err(NotAnObject)
    else
      var f := v.fields;
      Assemble(
        ReadMode(Lookup(f, "mode")), ReadRequirementList(Lookup(f, "requirements")),
        ReadRefute(Lookup(f, "refute")), ReadOverrides(Lookup(f, "overrides")),
        ReadStale(Lookup(f, "staleProposal")), ReadCount(Lookup(f, "maxReviewers")))
  }

  // ----- reading back what was written -----

  predicate RateOk(n: Option<Number>) {
    n.Some? ==> n.value.Finite? && 0.0 <= n.value.value <= 1.0
  }

  predicate QuorumOk(q: Quorum) {
    CountOk(q.minParticipants) && RateOk(q.minParticipationRate) && CountOk(q.groupSize)
  }

  /** What both boundaries guarantee of each requirement. */
  predicate WellTyped(req: Requirement) {
    && !IsBlank(req.group) && IsPositiveInt(req.minApprovals)
    && (req.quorum.Some? ==> QuorumOk(req.quorum.value))
    && ListOk(req.reviewerIds) && ListOk(req.lensAxes) && CountOk(req.maxReviewers)
  }

  /** What the reader alone demands, and a profile author can check. */
  predicate ReadsBack(rule: Rule) {
    && (forall i :: 0 <= i < |rule.requirements| ==> ReviewersSafe(rule.requirements[i]))
    && OverridesSafe(rule.overrides)
    && AgeUsable(rule.stale)
  }

  predicate ReviewersSafe(req: Requirement) {
    req.reviewerIds.Some? ==> AllPathSafe(req.reviewerIds.value)
  }

  lemma StringsRoundTrip(values: seq<string>)
    ensures StringsOf(Strings(values).items) == Some(values)
    ensures ReadStrings(Strings(values)) == if NoneBlank(values) && Distinct(values) then Ok(values) else Err(BadList)
  {
    assert StringsOf(Strings(values).items).value == values;
  }

  lemma ListRoundTrip(values: Option<seq<string>>)
    requires ListOk(values)
    ensures ReadList(ListProperty(values)) == Ok(values)
    ensures ReadReviewers(ListProperty(values)) ==
      if values.Some? && !AllPathSafe(values.value) then Err(UnsafeReviewer) else Ok(values)
  {
    if values.Some? { StringsRoundTrip(values.value); }
  }

  lemma BlockingRoundTrip(bs: seq<Blocking>)
    ensures ReadBlocking(Some(BlockingList(bs))) == Ok(bs)
  {
    BlockingItems(bs, BlockingList(bs).items);
  }

  lemma {:induction false} BlockingItems(bs: seq<Blocking>, items: seq<Json>)
    requires |items| == |bs| && forall i :: 0 <= i < |bs| ==> items[i] == BlockingJson(bs[i])
    ensures BlockingOf(items) == Some(bs)
    decreases |bs|
  {
    if bs != [] {
      BlockingItems(bs[1..], items[1..]);
      assert bs == [bs[0]] + bs[1..];
    }
  }

  lemma QuorumRoundTrip(q: Option<Quorum>)
    requires q.Some? ==> QuorumOk(q.value)
    ensures ReadQuorum(if q.Some? then Some(QuorumJson(q.value)) else None) == Ok(q)
  {
    if q.Some? {
      var f := QuorumJson(q.value).fields;
      assert Lookup(f, "minParticipants") == NumProperty(q.value.minParticipants);
      assert Lookup(f, "groupSize") == NumProperty(q.value.groupSize);
      assert Lookup(f, "minParticipationRate") == NumProperty(q.value.minParticipationRate);
    }
  }

  /** The fields of a written requirement, looked up by the reader's keys. */
  lemma RequirementFields(req: Requirement)
    ensures var f := RequirementJson(req).fields;
      && Lookup(f, "group") == Some(JStr(req.group))
      && Lookup(f, "minApprovals") == Some(NumJson(req.minApprovals))
      && Lookup(f, "blockingDecisions") == Some(BlockingList(req.blocking))
      && Lookup(f, "quorum") == (if req.quorum.Some? then Some(QuorumJson(req.quorum.value)) else None)
      && Lookup(f, "reviewerIds") == ListProperty(req.reviewerIds)
      && Lookup(f, "lensAxes") == ListProperty(req.lensAxes)
      && Lookup(f, "maxReviewers") == NumProperty(req.maxReviewers)
  { }

  lemma RequirementRoundTrip(req: Requirement)
    requires WellTyped(req)
    ensures ReadRequirement(RequirementJson(req)) == if ReviewersSafe(req) then Ok(req) else Err(UnsafeReviewer)
  {
    RequirementFields(req);
    BlockingRoundTrip(req.blocking);
    QuorumRoundTrip(req.quorum);
    ListRoundTrip(req.reviewerIds);
    ListRoundTrip(req.lensAxes);
  }

  /** Reading a list succeeds exactly when every item reads, and gives the items' values. */
  lemma {:induction false} ReadAllItems<T>(f: Json -> Result<T, RuleError>, items: seq<Json>, values: seq<T>)
    requires |items| == |values|
    requires forall i :: 0 <= i < |items| ==> f(items[i]).Ok? ==> f(items[i]).value == values[i]
    ensures ReadAll(f, items).Ok? <==> forall i :: 0 <= i < |items| ==> f(items[i]).Ok?
    ensures ReadAll(f, items).Ok? ==> ReadAll(f, items).value == values
    decreases |items|
  {
    if items != [] {
      ReadAllItems(f, items[1..], values[1..]);
      assert values == [values[0]] + values[1..];
      assert forall i :: 1 <= i < |items| ==> items[i] == items[1..][i - 1];
    }
  }

  lemma RequirementsRoundTrip(reqs: seq<Requirement>)
    requires forall i :: 0 <= i < |reqs| ==> WellTyped(reqs[i])
    ensures var r := ReadRequirementList(Some(RequirementList(reqs)));
      (r.Ok? <==> forall i :: 0 <= i < |reqs| ==> ReviewersSafe(reqs[i])) && (r.Ok? ==> r.value == reqs)
  {
    var items := RequirementList(reqs).items;
    forall i | 0 <= i < |reqs|
      ensures ReadRequirement(items[i]) == if ReviewersSafe(reqs[i]) then Ok(reqs[i]) else Err(UnsafeReviewer)
    {
      RequirementRoundTrip(reqs[i]);
    }
    ReadAllItems(ReadRequirement, items, reqs);
  }

  lemma RefuteRoundTrip(refute: Option<Refute>)
    requires refute.Some? ==> RefuteOk(refute.value)
    ensures ReadRefute(if refute.Some? then Some(RefuteJson(refute.value)) else None) == Ok(refute)
  {
    if refute.Some? {
      var f := RefuteJson(refute.value).fields;
      ListRoundTrip(Some(refute.value.reviewerIds));
      assert Lookup(f, "group") == Some(JStr(refute.value.group));
      assert Lookup(f, "reviewerIds") == ListProperty(Some(refute.value.reviewerIds));
      assert Lookup(f, "minParticipants") == NumProperty(refute.value.minParticipants);
      assert Lookup(f, "maxReviewers") == NumProperty(refute.value.maxReviewers);
    }
  }

  predicate OverridesSafe(o: Overrides) {
    Distinct(o.allowedReviewers) && AllPathSafe(o.allowedReviewers)
  }

  lemma OverridesRoundTrip(o: Overrides)
    ensures ReadOverrides(Some(OverridesJson(o))).Ok? <==> OverridesSafe(o)
    ensures OverridesSafe(o) ==> ReadOverrides(Some(OverridesJson(o))) == Ok(o)
  {
    StringsRoundTrip(o.allowedReviewers);
    if OverridesSafe(o) {
      forall i | 0 <= i < |o.allowedReviewers| ensures !IsBlank(o.allowedReviewers[i]) {
        PathSafeIsNotBlank(o.allowedReviewers[i]);
      }
    }
  }

  predicate AgeUsable(stale: Stale) {
    stale.maxAgeHours.Some? ==> stale.maxAgeHours.value.Finite? && stale.maxAgeHours.value.value > 0.0
  }

  lemma StaleRoundTrip(stale: Stale)
    ensures ReadStale(Some(StaleJson(stale))).Ok? <==> AgeUsable(stale)
    ensures AgeUsable(stale) ==> ReadStale(Some(StaleJson(stale))) == Ok(stale)
  {
    var f := StaleJson(stale).fields;
    assert Lookup(f, "rejectSuperseded") == Some(JBool(stale.rejectSuperseded));
    assert Lookup(f, "maxAgeHours") == NumProperty(stale.maxAgeHours);
  }

  lemma SnapshotFields(rule: Rule)
    ensures var f := Snapshot(rule).fields;
      && Lookup(f, "mode") == Some(JStr(if rule.mode.Consensus? then "consensus" else "latest-proposal"))
      && Lookup(f, "requirements") == Some(RequirementList(rule.requirements))
      && Lookup(f, "overrides") == Some(OverridesJson(rule.overrides))
      && Lookup(f, "staleProposal") == Some(StaleJson(rule.stale))
      && Lookup(f, "maxReviewers") == NumProperty(rule.maxReviewers)
      && Lookup(f, "refute") == (if rule.refute.Some? then Some(RefuteJson(rule.refute.value)) else None)
  { }

  /** Compilation leaves a rule whose parts the reader can parse. */
  lemma CompiledParts(profile: Option<Profile>, rule: Rule)
    requires Compile(profile) == Ok(rule)
    ensures forall i :: 0 <= i < |rule.requirements| ==> WellTyped(rule.requirements[i])
    ensures CountOk(rule.maxReviewers) && (rule.refute.Some? ==> RefuteOk(rule.refute.value))
    ensures Invariants(rule, false)
  { }

  lemma WellTypedRuleRoundTrip(rule: Rule)
    requires forall i :: 0 <= i < |rule.requirements| ==> WellTyped(rule.requirements[i])
    requires CountOk(rule.maxReviewers) && (rule.refute.Some? ==> RefuteOk(rule.refute.value))
    requires Invariants(rule, false)
    ensures Read(Snapshot(rule)) == Ok(rule) <==> ReadsBack(rule)
    ensures Read(Snapshot(rule)).Ok? ==> Read(Snapshot(rule)).value == rule
  {
    SnapshotFields(rule);
    RequirementsRoundTrip(rule.requirements);
    RefuteRoundTrip(rule.refute);
    OverridesRoundTrip(rule.overrides);
    StaleRoundTrip(rule.stale);
    ModeRoundTrip(rule.mode);
  }

  /** A compiled rule comes back from its snapshot unchanged exactly when its reviewer ids are path-safe,
      its override list has no repeats and its age limit is a positive finite number; otherwise it is
      refused, never altered. */
  lemma CompiledRuleReadsBack(profile: Option<Profile>, rule: Rule)
    requires Compile(profile) == Ok(rule)
    ensures Read(Snapshot(rule)) == Ok(rule) <==> ReadsBack(rule)
    ensures Read(Snapshot(rule)).Ok? ==> Read(Snapshot(rule)).value == rule
  {
    CompiledParts(profile, rule);
    WellTypedRuleRoundTrip(rule);
  }

  lemma {:induction false} ReadAllAreWellTyped(items: seq<Json>)
    requires ReadAll(ReadRequirement, items).Ok?
    ensures forall i :: 0 <= i < |ReadAll(ReadRequirement, items).value| ==>
      WellTyped(ReadAll(ReadRequirement, items).value[i]) && ReviewersSafe(ReadAll(ReadRequirement, items).value[i])
    decreases |items|
  {
    if items != [] {
      ReadAllAreWellTyped(items[1..]);
    }
  }

  /** Every accepted rule is well typed throughout, its reviewer ids are path-safe, its age limit is usable,
      and the shared invariants hold. */
  lemma AcceptedRuleIsSafe(v: Json, rule: Rule)
    requires Read(v) == Ok(rule)
    ensures forall i :: 0 <= i < |rule.requirements| ==> WellTyped(rule.requirements[i])
    ensures CountOk(rule.maxReviewers) && (rule.refute.Some? ==> RefuteOk(rule.refute.value))
    ensures Invariants(rule, false) && ReadsBack(rule)
  {
    ReadAllAreWellTyped(v.fields["requirements"].items);
  }

  /** Whatever snapshot the reader accepts, however it was written, saving its rule again loses nothing. */
  lemma AcceptedRuleIsStable(v: Json, rule: Rule)
    requires Read(v) == Ok(rule)
    ensures Read(Snapshot(rule)) == Ok(rule)
  {
    AcceptedRuleIsSafe(v, rule);
    WellTypedRuleRoundTrip(rule);
  }

  lemma ModeRoundTrip(mode: Mode)
    ensures ReadMode(Some(JStr(if mode.Consensus? then "consensus" else "latest-proposal"))) == Ok(mode)
  {
    assert "consensus"[0] != "latest-proposal"[0];
  }

  /** The default rule, used when a profile has no review section, always reads back. */
  lemma DefaultRuleReadsBack()
    ensures Compile(None) == Ok(DEFAULT_RULE) && Read(Snapshot(DEFAULT_RULE)) == Ok(DEFAULT_RULE)
  {
    CompiledRuleReadsBack(None, DEFAULT_RULE);
  }

  /** A profile that compiles and yet cannot be read back: an override reviewer the reader calls unsafe. */
  lemma SomeCompiledRuleIsRefused()
    ensures
      var profile := Profile(None, None, None, None, Some(["a/b"]), None, None, None);
      Compile(Some(profile)).Ok? && Read(Snapshot(Compile(Some(profile)).value)).Err?
  {
    var profile := Profile(None, None, None, None, Some(["a/b"]), None, None, None);
    var rule := DEFAULT_RULE.(overrides := Overrides(["a/b"], true));
    assert Compile(Some(profile)) == Ok(rule);
    assert !PathSafe("a/b") by { assert !IsIdChar("a/b"[1]); }
    assert !AllPathSafe(rule.overrides.allowedReviewers) by { assert !PathSafe(rule.overrides.allowedReviewers[0]); }
    CompiledRuleReadsBack(Some(profile), rule);
  }
}
