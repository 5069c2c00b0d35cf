/** Runs as the database and the exported files record them. */
module RunStore {
  import opened Text
  import opened ParentLinks
  import Consensus

  /** `hasTarget`: the repository, domain and base branch are all recorded. */
  datatype Meta = Meta(status: Status, parent: Option<string>, root: Option<string>, attempt: Option<int>, hasTarget: bool)

  datatype Status = Running | NeedsReview | Reviewed(decision: Consensus.Decision) | Other

  datatype Review = Review(decision: Consensus.Decision, changes: seq<string>)

  /** `db` is canonical; `files` are the exported copies and the runs that predate the database. */
  datatype Store = Store(db: map<string, Meta>, files: map<string, Meta>, reviews: map<string, Review>)

  datatype Position = Position(root: string, attempt: int)

  function LinksOf(metas: map<string, Meta>): (links: Links)
    ensures links.Keys == metas.Keys && forall id :: id in metas ==> links[id] == metas[id].parent
  {
    map id | id in metas :: metas[id].parent
  }

  /** Every run, with its row when it has one. */
  function AllRuns(store: Store): map<string, Meta> {
    store.files + store.db
  }

  /** The parent links of the whole store. */
  function AllLinks(store: Store): Links {
    LinksOf(AllRuns(store))
  }

  // ----- truth -----

  predicate SameChain(a: Meta, b: Meta) {
    a.parent == b.parent && a.root == b.root && a.attempt == b.attempt
  }

  /** Walking from the run takes `hops` links to `root`, and whatever the run records says so. */
  ghost predicate Records(links: Links, id: string, m: Meta, hops: nat, root: string) {
    && EndsAt(links, id, hops, root)
    && (m.root.Some? ==> m.root.value == root)
    && (m.attempt.Some? ==> m.attempt.value == hops)
  }

  /** A run that records a root or an attempt records what walking finds. */
  ghost predicate RecordIsWalk(store: Store, id: string)
    requires id in AllRuns(store)
  {
    var m := AllRuns(store)[id];
    m.root.Some? || m.attempt.Some? ==> exists hops: nat, root :: Records(AllLinks(store), id, m, hops, root)
  }

  /** Exported copies carry the chain fields of the row, and what a run records is what walking finds. */
  ghost predicate Truthful(store: Store) {
    && (forall id :: id in store.db && id in store.files ==> SameChain(store.db[id], store.files[id]))
    && (forall id :: id in AllRuns(store) ==> RecordIsWalk(store, id))
  }

  predicate Unrecorded(m: Meta) {
    m.root.None? && m.attempt.None?
  }

  /** A store that predates chain records: nothing recorded, whatever the links are, cyclic or dangling. */
  predicate Legacy(store: Store) {
    && (forall id :: id in store.db ==> Unrecorded(store.db[id]))
    && (forall id :: id in store.files ==> Unrecorded(store.files[id]))
    && (forall id :: id in store.db && id in store.files ==> SameChain(store.db[id], store.files[id]))
  }

  lemma LegacyIsTruthful(store: Store)
    requires Legacy(store)
    ensures Truthful(store)
  {
  }

  lemma WalksSurvive(small: Links, large: Links, x: string, hops: nat, root: string)
    requires forall id :: id in small ==> id in large && large[id] == small[id]
    requires EndsAt(small, x, hops, root)
    ensures EndsAt(large, x, hops, root)
  {
    ClimbMonotone(small, large, x, hops);
  }

  // ----- adding a run -----

  predicate IsNew(store: Store, id: string) {
    id !in store.db && id !in store.files
  }

  function AddRun(store: Store, id: string, meta: Meta, exported: bool): Store {
    Store(store.db[id := meta], if exported then store.files[id := meta] else store.files, store.reviews)
  }

  function ChildMeta(parent: string, at: Position): Meta {
    Meta(Running, Some(parent), Some(at.root), Some(at.attempt), true)
  }

  lemma AddedRuns(store: Store, id: string, meta: Meta, exported: bool)
    requires IsNew(store, id)
    ensures AllRuns(AddRun(store, id, meta, exported)) == AllRuns(store)[id := meta]
  {
  }

  lemma OldRecordSurvives(store: Store, after: Store, x: string)
    requires Truthful(store) && x in AllRuns(store)
    requires forall id :: id in AllRuns(store) ==> id in AllRuns(after) && AllRuns(after)[id] == AllRuns(store)[id]
    ensures RecordIsWalk(after, x)
  {
    assert RecordIsWalk(store, x);
    var m := AllRuns(store)[x];
    if !Unrecorded(m) {
      var hops: nat, root :| Records(AllLinks(store), x, m, hops, root);
      WalksSurvive(AllLinks(store), AllLinks(after), x, hops, root);
      assert Records(AllLinks(after), x, m, hops, root);
    }
  }

  lemma AddingKeepsTruth(store: Store, id: string, meta: Meta, exported: bool)
    requires Truthful(store) && IsNew(store, id)
    ensures var after := AddRun(store, id, meta, exported);
      id in AllRuns(after) && (Truthful(after) <==> RecordIsWalk(after, id))
  {
    var after := AddRun(store, id, meta, exported);
    AddedRuns(store, id, meta, exported);
    forall x | x in AllRuns(after) && x != id ensures RecordIsWalk(after, x) { OldRecordSurvives(store, after, x); }
  }

  /** A new child's record is true exactly when its parent stands one below. */
  lemma ChildRecord(store: Store, parent: string, id: string, at: Position, exported: bool)
    requires IsNew(store, id) && parent in AllRuns(store)
    ensures var after := AddRun(store, id, ChildMeta(parent, at), exported);
      && id in AllRuns(after)
      && (RecordIsWalk(after, id) <==> at.attempt >= 1 && EndsAt(AllLinks(store), parent, at.attempt - 1, at.root))
  {
    var after := AddRun(store, id, ChildMeta(parent, at), exported);
    var meta := ChildMeta(parent, at);
    AddedRuns(store, id, meta, exported);
    assert AllLinks(after)[id] == Some(parent) && AllRuns(after)[id] == meta;
    if at.attempt >= 1 && EndsAt(AllLinks(store), parent, at.attempt - 1, at.root) {
      WalksSurvive(AllLinks(store), AllLinks(after), parent, at.attempt - 1, at.root);
      assert Records(AllLinks(after), id, meta, at.attempt, at.root);
    }
    if RecordIsWalk(after, id) {
      var hops: nat, root :| Records(AllLinks(after), id, meta, hops, root);
      WalkAvoidsNew(store, after, id, parent, hops - 1, root);
    }
  }

  /** A walk that ends, started below a new run, does not pass through it. */
  lemma WalkAvoidsNew(store: Store, after: Store, id: string, parent: string, hops: nat, root: string)
    requires id !in AllRuns(store) && AllRuns(after).Keys == AllRuns(store).Keys + {id}
    requires forall x :: x in AllRuns(store) ==> AllRuns(after)[x] == AllRuns(store)[x]
    requires AllLinks(after)[id] == Some(parent) && parent in AllRuns(store) && EndsAt(AllLinks(after), parent, hops, root)
    ensures EndsAt(AllLinks(store), parent, hops, root)
  {
    if Climb(AllLinks(store), parent, hops).Some? {
      ClimbMonotone(AllLinks(store), AllLinks(after), parent, hops);
    } else {
      var k := MissesFrom(AllLinks(store), AllLinks(after), id, parent, hops);
      EndsNowhere(AllLinks(after), id, parent, k + 1, hops, root);
    }
  }

  /** Where the smaller store's walk gives out, the larger one's is at the new run. */
  lemma {:induction false} MissesFrom(small: Links, large: Links, id: string, x: string, hops: nat) returns (k: nat)
    requires large.Keys == small.Keys + {id} && id !in small && forall y :: y in small ==> large[y] == small[y]
    requires Climb(large, x, hops).Some? && Climb(small, x, hops).None? && x in large
    ensures k < hops && Climb(large, x, k) == Some(id)
    decreases hops
  {
    if x == id {
      k := 0;
    } else {
      var rest := MissesFrom(small, large, id, large[x].value, hops - 1);
      k := rest + 1;
    }
  }

  /** A run that leads back to itself has no end above it. */
  lemma EndsNowhere(links: Links, id: string, parent: string, period: nat, hops: nat, root: string)
    requires id in links && links[id] == Some(parent) && period >= 1 && Climb(links, parent, period - 1) == Some(id)
    ensures !EndsAt(links, parent, hops, root)
  {
    ClimbAdd(links, parent, period - 1, 1);
    assert Climb(links, parent, 0) == Climb(links, parent, period);
    ReturnIsForever(links, parent, 0, period, hops + 1);
    if EndsAt(links, parent, hops, root) { NothingAbove(links, parent, hops, root, hops + 1); }
  }
}
