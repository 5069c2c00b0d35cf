/**
 * Rerun chains: where a run stands in its chain, recorded or reconstructed, the gate in front of
 * a rerun, and what every sequence of runs, continuations, reviews, exports and reruns keeps.
 */
module RerunChain {
  import opened Text
  import opened ParentLinks
  import opened RunStore
  import opened Continuation
  import Consensus
  import ReviewProcess

  datatype Refusal =
    | InvalidId | InvalidCap | MissingRun | WrongStatus | NoTarget | Cycle | CapReached | HasChild | NothingToChange | GoalTooLong

  const DEFAULT_MAX_ATTEMPTS := 2
  const MAX_GOAL_BYTES := 64 * 1024

  // ----- position in the chain -----

  predicate Recorded(m: Meta) {
    m.root.Some? && m.attempt.Some?
  }

  /** What walking the parent links says, starting from a run whose meta is already loaded. */
  ghost predicate WalksTo(files: map<string, Meta>, start: string, meta: Meta, at: Position) {
    at.attempt >= 0 && EndsAt(LinksOf(files[start := meta]), start, at.attempt, at.root)
  }

  /** The position the gate works with: the recorded one if there is one, else the walked one. */
  ghost predicate StandsAt(files: map<string, Meta>, start: string, meta: Meta, at: Position) {
    if Recorded(meta) then at == Position(meta.root.value, meta.attempt.value) else WalksTo(files, start, meta, at)
  }

  method ResolveParentChainPosition(files: map<string, Meta>, start: string, meta: Meta)
    returns (r: Result<Position, Refusal>)
    ensures r.Ok? ==> StandsAt(files, start, meta, r.value)
    ensures r.Err? ==> r.error in {Cycle, MissingRun} && forall at :: !StandsAt(files, start, meta, at)
    ensures !Recorded(meta) ==> (r == Err(Cycle) <==> GoesOnForever(LinksOf(files[start := meta]), start))
    ensures !Recorded(meta) ==> (r == Err(MissingRun) <==> Dangles(LinksOf(files[start := meta]), start))
  {
    if Recorded(meta) {
      return Ok(Position(meta.root.value, meta.attempt.value));
    }
    ghost var links := LinksOf(files[start := meta]);
    var current, currentMeta, depth := start, meta, 0;
    var seen := {start};
    while currentMeta.parent.Some?
      invariant Climb(links, start, depth) == Some(current)
      invariant current in links && currentMeta.parent == links[current]
      invariant start in seen && seen <= links.Keys
      invariant forall p :: p in seen ==> exists i: nat :: i <= depth && Climb(links, start, i) == Some(p)
      decreases links.Keys - seen
    {
      var p := currentMeta.parent.value;
      ClimbAdd(links, start, depth, 1);
      assert Climb(links, start, depth + 1) == Some(p);
      if p in seen {
        WalkReturns(links, start, depth + 1);
        return Err(Cycle);
      }
      if p !in files {
        WalkBreaks(links, start, depth + 1, p);
        return Err(MissingRun);
      }
      seen := seen + {p};
      depth := depth + 1;
      current, currentMeta := p, files[p];
    }
    WalkEnds(links, start, depth, current);
    r := Ok(Position(current, depth));
  }

  lemma WalkReturns(links: Links, start: string, j: nat)
    requires Climb(links, start, j).Some?
    requires exists i: nat :: i < j && Climb(links, start, i) == Climb(links, start, j)
    ensures GoesOnForever(links, start) && !Dangles(links, start)
    ensures forall hops: nat, root :: !EndsAt(links, start, hops, root)
  {
    var i: nat :| i < j && Climb(links, start, i) == Climb(links, start, j);
    forall hops: nat ensures Climb(links, start, hops).Some? { ReturnIsForever(links, start, i, j, hops); }
    forall hops: nat, top ensures !EndsAt(links, start, hops, top) && !BreaksAt(links, start, hops, top) {
      NeverStops(links, start, hops, top);
    }
  }

  lemma NeverStops(links: Links, start: string, hops: nat, top: string)
    requires GoesOnForever(links, start)
    ensures !EndsAt(links, start, hops, top) && !BreaksAt(links, start, hops, top)
  {
    assert Climb(links, start, hops + 1).Some?;
    if EndsAt(links, start, hops, top) || BreaksAt(links, start, hops, top) {
      NothingAbove(links, start, hops, top, hops + 1);
    }
  }

  lemma WalkBreaks(links: Links, start: string, hops: nat, gap: string)
    requires BreaksAt(links, start, hops, gap)
    ensures !GoesOnForever(links, start) && Dangles(links, start)
    ensures forall h: nat, root :: !EndsAt(links, start, h, root)
  {
    NothingAbove(links, start, hops, gap, hops + 1);
    forall h: nat, root ensures !EndsAt(links, start, h, root) {
      if EndsAt(links, start, h, root) { StopIsUnique(links, start, h, root, hops, gap); }
    }
  }

  lemma WalkEnds(links: Links, start: string, hops: nat, root: string)
    requires EndsAt(links, start, hops, root)
    ensures !GoesOnForever(links, start)
    ensures !Dangles(links, start)
  {
    NothingAbove(links, start, hops, root, hops + 1);
    forall h: nat, gap ensures !BreaksAt(links, start, h, gap) {
      if BreaksAt(links, start, h, gap) { StopIsUnique(links, start, hops, root, h, gap); }
    }
  }

  lemma PositionIsUnique(files: map<string, Meta>, start: string, meta: Meta, a: Position, b: Position)
    requires StandsAt(files, start, meta, a) && StandsAt(files, start, meta, b)
    ensures a == b
  {
    if !Recorded(meta) { StopIsUnique(LinksOf(files[start := meta]), start, a.attempt, a.root, b.attempt, b.root); }
  }

  // ----- the gate -----

  /** The database row when there is one, else the exported file. */
  function Load(store: Store, id: string): Option<Meta> {
    if id in store.db then Some(store.db[id]) else Lookup(store.files, id)
  }

  predicate ChildInDb(store: Store, parent: string) {
    exists id :: id in store.db && store.db[id].parent == Some(parent)
  }

  predicate AsksForChanges(review: Option<Review>) {
    review.Some? && review.value.decision.ChangesRequested? && review.value.changes != []
  }

  function Cap(maxAttempts: Option<int>): int {
    if maxAttempts.Some? then maxAttempts.value else DEFAULT_MAX_ATTEMPTS
  }

  /** What is asked: the parent, the cap, and how long the new goal text would be. */
  datatype Ask = Ask(parent: string, maxAttempts: Option<int>, goalBytes: nat)

  /** What it takes for a child to be prepared at `at`. */
  ghost predicate MayRerun(store: Store, ask: Ask, at: Position) {
    && ValidRunId(ask.parent) && Cap(ask.maxAttempts) >= 1
    && var loaded := Load(store, ask.parent);
    && loaded.Some? && loaded.value.status == Reviewed(Consensus.ChangesRequested) && loaded.value.hasTarget
    && StandsAt(store.files, ask.parent, loaded.value, Position(at.root, at.attempt - 1))
    && at.attempt <= Cap(ask.maxAttempts)
    && !ChildInDb(store, ask.parent)
    && AsksForChanges(Lookup(store.reviews, ask.parent))
    && ask.goalBytes <= MAX_GOAL_BYTES
  }

  method PrepareRerunFromReview(store: Store, ask: Ask) returns (r: Result<Position, Refusal>)
    ensures forall at :: r == Ok(at) <==> MayRerun(store, ask, at)
  {
    var parent := ask.parent;
    if !ValidRunId(parent) {
      return Err(InvalidId);
    }
    if Cap(ask.maxAttempts) < 1 {
      return Err(InvalidCap);
    }
    var loaded := Load(store, parent);
    if loaded.None? {
      return Err(MissingRun);
    }
    if loaded.value.status != Reviewed(Consensus.ChangesRequested) {
      return Err(WrongStatus);
    }
    if !loaded.value.hasTarget {
      return Err(NoTarget);
    }
    var resolved := ResolveParentChainPosition(store.files, parent, loaded.value);
    if resolved.Err? {
      return Err(resolved.error);
    }
    var at := Position(resolved.value.root, resolved.value.attempt + 1);
    forall other | MayRerun(store, ask, other) ensures other == at {
      PositionIsUnique(store.files, parent, loaded.value, resolved.value, Position(other.root, other.attempt - 1));
    }
    if at.attempt > Cap(ask.maxAttempts) {
      return Err(CapReached);
    }
    if ChildInDb(store, parent) {
      return Err(HasChild);
    }
    if !AsksForChanges(Lookup(store.reviews, parent)) {
      return Err(NothingToChange);
    }
    if ask.goalBytes > MAX_GOAL_BYTES {
      return Err(GoalTooLong);
    }
    r := Ok(at);
  }

  // ----- the gate in numbers -----

  /** What acceptance means: a cap of at least one, which the new attempt does not exceed; the cap is the one
      asked for, or two. The review says `changes_requested` and lists at least one change. */
  lemma AcceptedRerunMeans(store: Store, ask: Ask, at: Position)
    requires MayRerun(store, ask, at)
    ensures ask.maxAttempts.Some? ==> 1 <= ask.maxAttempts.value && at.attempt <= ask.maxAttempts.value
    ensures ask.maxAttempts.None? ==> at.attempt <= 2
    ensures ask.goalBytes <= 65_536
    ensures ask.parent in store.reviews && store.reviews[ask.parent].decision == Consensus.ChangesRequested
    ensures |store.reviews[ask.parent].changes| > 0
    ensures forall id :: id in store.db ==> store.db[id].parent != Some(ask.parent)
    ensures ask.parent in store.db ==>
      store.db[ask.parent].status == Reviewed(Consensus.ChangesRequested) && store.db[ask.parent].hasTarget
    ensures ask.parent !in store.db ==>
      && ask.parent in store.files && store.files[ask.parent].hasTarget
      && store.files[ask.parent].status == Reviewed(Consensus.ChangesRequested)
  {
  }

  /** What is asked apart from the cap. */
  ghost predicate Otherwise(store: Store, ask: Ask, parentAt: Position) {
    && ValidRunId(ask.parent) && ask.goalBytes <= 65_536
    && Load(store, ask.parent).Some? && Load(store, ask.parent).value.hasTarget
    && Load(store, ask.parent).value.status == Reviewed(Consensus.ChangesRequested)
    && StandsAt(store.files, ask.parent, Load(store, ask.parent).value, parentAt)
    && (forall id :: id in store.db ==> store.db[id].parent != Some(ask.parent))
    && ask.parent in store.reviews && store.reviews[ask.parent].decision == Consensus.ChangesRequested
    && store.reviews[ask.parent].changes != []
  }

  /** With everything else in order, a parent standing at `n - 1` may be rerun under a cap of `n` and one
      standing at `n` may not. */
  lemma CapDecides(store: Store, parent: string, n: int, goalBytes: nat, parentAt: Position)
    requires Otherwise(store, Ask(parent, Some(n), goalBytes), parentAt) && Otherwise(store, Ask(parent, None, goalBytes), parentAt)
    ensures MayRerun(store, Ask(parent, Some(n), goalBytes), Position(parentAt.root, parentAt.attempt + 1)) <==> n >= 1 && parentAt.attempt < n
    ensures MayRerun(store, Ask(parent, None, goalBytes), Position(parentAt.root, parentAt.attempt + 1)) <==> parentAt.attempt < 2
  {
  }

  /** A run id names a directory directly below the runs directory. */
  lemma RunIdMeans(id: string)
    ensures ValidRunId(id) ==> 5 <= |id| < 133 && StartsWith(id, "run-") && '/' !in id && '\\' !in id && ' ' !in id && '\0' !in id
    ensures 5 <= |id| <= 132 && StartsWith(id, "run-") && (forall i :: 4 <= i < |id| ==> 'a' <= id[i] <= 'z' || '0' <= id[i] <= '9') ==> ValidRunId(id)
  {
    if ValidRunId(id) {
      forall i | 0 <= i < 4 ensures id[i] in {'r', 'u', 'n', '-'} { assert id[..4][i] == "run-"[i]; }
    }
  }

  // ----- runs, continuations, reviews, exports and reruns -----

  datatype Event =
    | Original(id: string, exported: bool)
    | Rerun(ask: Ask, id: string, exported: bool)
    | Continue(parent: string, id: string, exported: bool)
    | Reviewing(id: string, status: Status, review: Option<Review>)
    | Export(id: string)
    | ExportLost(id: string)

  /** A continuation needs a row for its parent and no child row; it has no cap and no status gate. */
  ghost predicate MayContinue(store: Store, parent: string) {
    parent in store.db && !ChildInDb(store, parent)
  }

  ghost predicate Next(before: Store, e: Event, after: Store) {
    match e
    case Original(id, exported) =>
      IsNew(before, id) && after == AddRun(before, id, Meta(Running, None, None, None, true), exported)
    case Rerun(ask, id, exported) =>
      && IsNew(before, id)
      && exists at :: MayRerun(before, ask, at) && after == AddRun(before, id, ChildMeta(ask.parent, at), exported)
    case Continue(parent, id, exported) =>
      && IsNew(before, id) && MayContinue(before, parent)
      && after == AddRun(before, id, ChildMeta(parent, Derived(before.db, parent, WALK_LIMIT)), exported)
    case Reviewing(id, status, review) =>
      && id in before.db
      && after == before.(
           db := before.db[id := before.db[id].(status := status)],
           reviews := if review.Some? then before.reviews[id := review.value] else before.reviews)
    case Export(id) =>
      id in before.db && after == before.(files := before.files[id := before.db[id]])
    case ExportLost(id) =>
      id in before.db && after == before.(files := before.files - {id})
  }

  ghost predicate IsTrace(stores: seq<Store>, events: seq<Event>) {
    |stores| == |events| + 1 && forall k :: 0 <= k < |events| ==> Next(stores[k], events[k], stores[k + 1])
  }

  // ----- records stay true -----

  /** The gate's idea of the parent's position is the walk through the whole store. */
  lemma StandingIsWalking(store: Store, parent: string, at: Position)
    requires Truthful(store) && Load(store, parent).Some?
    requires StandsAt(store.files, parent, Load(store, parent).value, at)
    ensures at.attempt >= 0 && EndsAt(AllLinks(store), parent, at.attempt, at.root)
  {
    var meta := Load(store, parent).value;
    if Recorded(meta) {
      assert parent in AllRuns(store) && AllRuns(store)[parent] == meta;
      assert RecordIsWalk(store, parent);
    } else {
      ClimbMonotone(LinksOf(store.files[parent := meta]), AllLinks(store), parent, at.attempt);
    }
  }

  lemma RerunKeepsTruth(store: Store, ask: Ask, id: string, at: Position, exported: bool)
    requires Truthful(store) && IsNew(store, id) && MayRerun(store, ask, at)
    ensures Truthful(AddRun(store, id, ChildMeta(ask.parent, at), exported))
  {
    StandingIsWalking(store, ask.parent, Position(at.root, at.attempt - 1));
    ChildRecord(store, ask.parent, id, at, exported);
    AddingKeepsTruth(store, id, ChildMeta(ask.parent, at), exported);
  }

  lemma ContinuationKeepsTruth(store: Store, parent: string, id: string, exported: bool)
    requires Truthful(store) && IsNew(store, id) && parent in store.db
    ensures Truthful(AddRun(store, id, ChildMeta(parent, Derived(store.db, parent, WALK_LIMIT)), exported)) <==>
      FullyAnchored(store.db, parent, WALK_LIMIT)
  {
    var at := Derived(store.db, parent, WALK_LIMIT);
    DerivedIsWalked(store, parent, WALK_LIMIT);
    ChildRecord(store, parent, id, at, exported);
    AddingKeepsTruth(store, id, ChildMeta(parent, at), exported);
  }

  /** A change that leaves the chain fields of the whole store alone keeps it truthful. */
  lemma SameLinksKeepTruth(store: Store, after: Store)
    requires Truthful(store)
    requires AllRuns(after).Keys == AllRuns(store).Keys
    requires forall id :: id in AllRuns(store) ==> SameChain(AllRuns(store)[id], AllRuns(after)[id])
    requires forall id :: id in after.db && id in after.files ==> SameChain(after.db[id], after.files[id])
    ensures Truthful(after)
  {
    assert AllLinks(after) == AllLinks(store);
    forall id | id in AllRuns(after) ensures RecordIsWalk(after, id) {
      assert RecordIsWalk(store, id);
      var m := AllRuns(store)[id];
      if !Unrecorded(m) {
        var hops: nat, root :| Records(AllLinks(store), id, m, hops, root);
        assert Records(AllLinks(after), id, AllRuns(after)[id], hops, root);
      }
    }
  }

  /** A continuation whose parent's rows lead to an answer. */
  ghost predicate AnchoredEvent(store: Store, e: Event) {
    e.Continue? ==> FullyAnchored(store.db, e.parent, WALK_LIMIT)
  }

  /** Every step keeps the store truthful, except a continuation whose parent's rows lead to no answer:
      that one always makes it untruthful. */
  lemma StepKeepsTruth(before: Store, e: Event, after: Store)
    requires Truthful(before) && Next(before, e, after)
    ensures Truthful(after) <==> AnchoredEvent(before, e)
  {
    match e
    case Original(id, exported) => OriginalKeepsTruth(before, id, exported);
    case Rerun(ask, id, exported) =>
      var at :| MayRerun(before, ask, at) && after == AddRun(before, id, ChildMeta(ask.parent, at), exported);
      RerunKeepsTruth(before, ask, id, at, exported);
    case Continue(parent, id, exported) => ContinuationKeepsTruth(before, parent, id, exported);
    case _ => BookkeepingKeepsTruth(before, e, after);
  }

  lemma OriginalKeepsTruth(store: Store, id: string, exported: bool)
    requires Truthful(store) && IsNew(store, id)
    ensures Truthful(AddRun(store, id, Meta(Running, None, None, None, true), exported))
  {
    AddedRuns(store, id, Meta(Running, None, None, None, true), exported);
    AddingKeepsTruth(store, id, Meta(Running, None, None, None, true), exported);
  }

  lemma BookkeepingKeepsTruth(before: Store, e: Event, after: Store)
    requires Truthful(before) && Next(before, e, after) && (e.Reviewing? || e.Export? || e.ExportLost?)
    ensures Truthful(after)
  {
    SameLinksKeepTruth(before, after);
  }

  ghost predicate AllAnchored(stores: seq<Store>, events: seq<Event>)
    requires |stores| == |events| + 1
  {
    forall k :: 0 <= k < |events| ==> AnchoredEvent(stores[k], events[k])
  }

  /** After any steps from any truthful store, so from any legacy one, every recorded root and attempt is
      what walking the parent links finds, as long as each continuation was anchored. */
  lemma {:induction false} RecordsStayTruthful(stores: seq<Store>, events: seq<Event>)
    requires IsTrace(stores, events) && Truthful(stores[0]) && AllAnchored(stores, events)
    ensures Truthful(stores[|events|])
    decreases |events|
  {
    if events != [] {
      var n := |events| - 1;
      TracePrefix(stores, events);
      RecordsStayTruthful(stores[..n + 1], events[..n]);
      assert AnchoredEvent(stores[n], events[n]);
      StepKeepsTruth(stores[n], events[n], stores[n + 1]);
    }
  }

  lemma TracePrefix(stores: seq<Store>, events: seq<Event>)
    requires IsTrace(stores, events) && events != []
    ensures var n := |events| - 1;
      && IsTrace(stores[..n + 1], events[..n]) && stores[..n + 1][n] == stores[n] && stores[..n + 1][0] == stores[0]
      && (AllAnchored(stores, events) ==> AllAnchored(stores[..n + 1], events[..n]))
      && Next(stores[n], events[n], stores[n + 1])
  {
    var n := |events| - 1;
    var ss, es := stores[..n + 1], events[..n];
    forall k | 0 <= k < n ensures Next(ss[k], es[k], ss[k + 1]) { assert Next(stores[k], events[k], stores[k + 1]); }
    if AllAnchored(stores, events) {
      forall k | 0 <= k < n ensures AnchoredEvent(ss[k], es[k]) { assert AnchoredEvent(stores[k], events[k]); }
    }
  }

  // ----- the cap -----

  /** Rows are never dropped and their chain fields never change. */
  lemma StepKeepsChains(before: Store, e: Event, after: Store, id: string)
    requires Next(before, e, after) && id in before.db
    ensures id in after.db && SameChain(before.db[id], after.db[id])
  {
  }

  ghost predicate MadeByRerun(events: seq<Event>, id: string, m: Meta, k: nat) {
    && k < |events| && events[k].Rerun? && events[k].id == id
    && m.parent == Some(events[k].ask.parent) && Recorded(m)
    && m.attempt.value <= (match events[k].ask.maxAttempts case Some(n) => n case None => 2)
  }

  ghost predicate MadeByContinuation(events: seq<Event>, id: string, m: Meta, k: nat) {
    k < |events| && events[k].Continue? && events[k].id == id && m.parent == Some(events[k].parent) && Recorded(m)
  }

  /** Whichever row has a parent and was not there at the start was made by a rerun, within its cap, or by
      a continuation. */
  lemma {:induction false} ChildrenComeFromSteps(stores: seq<Store>, events: seq<Event>, id: string)
    requires IsTrace(stores, events)
    requires var last := stores[|events|];
      id in last.db && id !in stores[0].db && last.db[id].parent.Some?
    ensures var m := stores[|events|].db[id];
      exists k: nat :: MadeByRerun(events, id, m, k) || MadeByContinuation(events, id, m, k)
    decreases |events|
  {
    var n := |events| - 1;
    TracePrefix(stores, events);
    var m := stores[n + 1].db[id];
    if id in stores[n].db {
      StepKeepsChains(stores[n], events[n], stores[n + 1], id);
      ChildrenComeFromSteps(stores[..n + 1], events[..n], id);
      var before := stores[n].db[id];
      var k: nat :| MadeByRerun(events[..n], id, before, k) || MadeByContinuation(events[..n], id, before, k);
      assert MadeByRerun(events, id, m, k) || MadeByContinuation(events, id, m, k);
    } else {
      assert MadeByRerun(events, id, m, n) || MadeByContinuation(events, id, m, n);
    }
  }

  /** A run that a rerun made is there for good, as that rerun recorded it. */
  lemma {:induction false} RerunMade(stores: seq<Store>, events: seq<Event>, k: nat)
    requires IsTrace(stores, events) && k < |events| && events[k].Rerun?
    ensures events[k].id in stores[|events|].db
    ensures MadeByRerun(events, events[k].id, stores[|events|].db[events[k].id], k)
    decreases |events|
  {
    var n := |events| - 1;
    TracePrefix(stores, events);
    if k < n {
      RerunMade(stores[..n + 1], events[..n], k);
      StepKeepsChains(stores[n], events[n], stores[n + 1], events[k].id);
    }
  }

  /** When every continuation was anchored, walking up from a run that a rerun made takes no more hops than
      the cap that rerun was given. */
  lemma RerunsStayWithinCap(stores: seq<Store>, events: seq<Event>, k: nat)
    requires IsTrace(stores, events) && Truthful(stores[0]) && AllAnchored(stores, events)
    requires k < |events| && events[k].Rerun?
    ensures exists hops: nat, root :: WithinAsked(events[k].ask.maxAttempts, hops) && EndsAt(AllLinks(stores[|events|]), events[k].id, hops, root)
  {
    var id, last := events[k].id, stores[|events|];
    RecordsStayTruthful(stores, events);
    RerunMade(stores, events, k);
    assert AllRuns(last)[id] == last.db[id] && RecordIsWalk(last, id);
    var hops: nat, root :| Records(AllLinks(last), id, last.db[id], hops, root);
    assert WithinAsked(events[k].ask.maxAttempts, hops) && EndsAt(AllLinks(last), id, hops, root);
  }

  /** No more than was asked for, or than two. */
  predicate WithinAsked(maxAttempts: Option<int>, hops: nat) {
    hops <= match maxAttempts case Some(n) => n case None => 2
  }

  // ----- a continuation can misplace a chain -----

  const LEGACY_RUN := Meta(Other, None, None, None, true)

  /** `run-2`, in the database, is a legacy rerun of `run-1`, which exists only as files. */
  const HALF_IMPORTED := Store(map["run-2" := LEGACY_RUN.(parent := Some("run-1"))], map["run-1" := LEGACY_RUN], map[])

  /** Continuing `run-2` records root `run-2` and attempt 1, where walking finds root `run-1` in two hops. */
  lemma ContinuationMisplaces(exported: bool)
    ensures Legacy(HALF_IMPORTED) && MayContinue(HALF_IMPORTED, "run-2") && !FullyAnchored(HALF_IMPORTED.db, "run-2", WALK_LIMIT)
    ensures Derived(HALF_IMPORTED.db, "run-2", WALK_LIMIT) == Position("run-2", 1)
    ensures EndsAt(AllLinks(HALF_IMPORTED), "run-2", 1, "run-1")
    ensures !Truthful(AddRun(HALF_IMPORTED, "run-3", ChildMeta("run-2", Position("run-2", 1)), exported))
  {
    var s := HALF_IMPORTED;
    assert s.db["run-2"].parent == Some("run-1") && "run-1" !in s.db;
    assert "run-1" in AllRuns(s) && AllLinks(s)["run-2"] == Some("run-1") && AllLinks(s)["run-1"] == None;
    assert Climb(AllLinks(s), "run-1", 0) == Some("run-1");
    assert Climb(AllLinks(s), "run-2", 1) == Some("run-1");
    LegacyIsTruthful(s);
    MisplacedIsNotAnchored(s);
    ContinuationKeepsTruth(s, "run-2", "run-3", exported);
  }

  lemma MisplacedIsNotAnchored(s: Store)
    requires s == HALF_IMPORTED && Truthful(s) && EndsAt(AllLinks(s), "run-2", 1, "run-1")
    requires Derived(s.db, "run-2", WALK_LIMIT) == Position("run-2", 1)
    ensures !FullyAnchored(s.db, "run-2", WALK_LIMIT)
  {
    DerivedIsWalked(s, "run-2", WALK_LIMIT);
  }

  /** So the fast path under-counts: `run-3`, sent back, is rerun as attempt 2 under the default cap of 2,
      though it already stands two hops below `run-1`. */
  lemma MisplacedChainPassesCap(review: Review)
    requires AsksForChanges(Some(review))
    ensures
      var child := ChildMeta("run-2", Position("run-2", 1)).(status := Reviewed(Consensus.ChangesRequested));
      var store := Store(HALF_IMPORTED.db["run-3" := child], HALF_IMPORTED.files, map["run-3" := review]);
      && MayRerun(store, Ask("run-3", None, 0), Position("run-2", 2))
      && EndsAt(AllLinks(store), "run-3", 2, "run-1")
  {
    var child := ChildMeta("run-2", Position("run-2", 1)).(status := Reviewed(Consensus.ChangesRequested));
    var store := Store(HALF_IMPORTED.db["run-3" := child], HALF_IMPORTED.files, map["run-3" := review]);
    var links := AllLinks(store);
    assert links["run-3"] == Some("run-2") && links["run-2"] == Some("run-1") && links["run-1"] == None;
    assert Climb(links, "run-1", 0) == Some("run-1");
    assert Climb(links, "run-2", 1) == Some("run-1");
    assert Climb(links, "run-3", 2) == Some("run-1");
  }

  // ----- one child per parent -----

  predicate IsChild(store: Store, parent: string, id: string) {
    id in AllRuns(store) && AllRuns(store)[id].parent == Some(parent)
  }

  predicate FileOnly(store: Store, id: string) {
    id in store.files && id !in store.db
  }

  /** A gate that lets a second child through has overlooked one that exists only as files. */
  lemma GateOverlooksFilesOnly(store: Store, parent: string, child: string)
    requires IsChild(store, parent, child) && !ChildInDb(store, parent)
    ensures FileOnly(store, child)
  {
  }

  /** Runs are never dropped, and only a step that makes a run makes a new one, with a row. */
  lemma StepKeepsRuns(before: Store, e: Event, after: Store, id: string)
    requires Next(before, e, after)
    ensures id in AllRuns(before) ==> id in AllRuns(after) && AllRuns(after)[id].parent == AllRuns(before)[id].parent
    ensures id in AllRuns(after) && id !in AllRuns(before) ==>
      && id in after.db && (e.Original? || e.Rerun? || e.Continue?) && e.id == id
      && forall parent :: after.db[id].parent == Some(parent) ==> !ChildInDb(before, parent)
  {
  }

  lemma {:induction false} FileOnlyFromTheStart(stores: seq<Store>, events: seq<Event>, id: string)
    requires IsTrace(stores, events) && FileOnly(stores[|events|], id)
    ensures FileOnly(stores[0], id)
    decreases |events|
  {
    if events != [] {
      var n := |events| - 1;
      TracePrefix(stores, events);
      StepKeepsRuns(stores[n], events[n], stores[n + 1], id);
      assert FileOnly(stores[n], id);
      FileOnlyFromTheStart(stores[..n + 1], events[..n], id);
    }
  }

  /** Two children of one parent, wherever they are recorded: both were there from the start, or one of
      them was, as files without a row. */
  lemma {:induction false} OneChildPerParent(stores: seq<Store>, events: seq<Event>, parent: string, a: string, b: string)
    requires IsTrace(stores, events) && a != b
    requires IsChild(stores[|events|], parent, a) && IsChild(stores[|events|], parent, b)
    ensures (a in AllRuns(stores[0]) && b in AllRuns(stores[0])) || FileOnly(stores[0], a) || FileOnly(stores[0], b)
    decreases |events|
  {
    if events != [] {
      var n := |events| - 1;
      TracePrefix(stores, events);
      StepKeepsRuns(stores[n], events[n], stores[n + 1], a);
      StepKeepsRuns(stores[n], events[n], stores[n + 1], b);
      if a !in AllRuns(stores[n]) {
        GateOverlooksFilesOnly(stores[n], parent, b);
        FileOnlyFromTheStart(stores[..n + 1], events[..n], b);
      } else if b !in AllRuns(stores[n]) {
        GateOverlooksFilesOnly(stores[n], parent, a);
        FileOnlyFromTheStart(stores[..n + 1], events[..n], a);
      } else {
        OneChildPerParent(stores[..n + 1], events[..n], parent, a, b);
      }
    }
  }

  const SENT_BACK := Meta(Reviewed(Consensus.ChangesRequested), None, None, None, true)

  /** And that happens: a run that predates the database, with a child that does too, is given a second
      child. */
  lemma FileOnlyChildIsOverlooked(review: Review)
    requires AsksForChanges(Some(review))
    ensures var store := Store(map[], map["run-1" := SENT_BACK, "run-2" := SENT_BACK.(parent := Some("run-1"))], map["run-1" := review]);
      && Legacy(store) && IsChild(store, "run-1", "run-2")
      && MayRerun(store, Ask("run-1", None, 0), Position("run-1", 1))
  {
    var store := Store(map[], map["run-1" := SENT_BACK, "run-2" := SENT_BACK.(parent := Some("run-1"))], map["run-1" := review]);
    assert WalksTo(store.files, "run-1", SENT_BACK, Position("run-1", 0));
  }

  // ----- consensus feeds the gate -----

  /** The review a promotion leaves behind. */
  function ReviewOf(record: ReviewProcess.Record): Review {
    Review(record.decision, record.changes)
  }

  /** If every changes request said what to change, the rerun gate's demand for required changes accepts
      every run that consensus sent back. */
  lemma SentBackPassesGate(hash: Consensus.ChangeHash, events: seq<ReviewProcess.Event>)
    requires forall j :: 0 <= j < |events| ==> ReviewProcess.SubmitsActionable(events[j])
    requires ReviewProcess.Run(hash, events, ReviewProcess.Fresh).status == ReviewProcess.Decided(Consensus.ChangesRequested)
    ensures var record := ReviewProcess.Run(hash, events, ReviewProcess.Fresh).record;
      record.Some? && AsksForChanges(Some(ReviewOf(record.value)))
  {
    ReviewProcess.SomePromotion(hash, events);
    var k: nat :| ReviewProcess.PromotedAt(hash, events, k);
    ReviewProcess.SentBackHasWork(hash, events, k);
  }
}
