/**
 * The continuation of a coding run inside a session: its place in the chain is derived from database
 * rows alone, without a cap on attempts.
 */
module Continuation {
  import opened Text
  import opened ParentLinks
  import opened RunStore

  const WALK_LIMIT := 10_000

  /** An empty string counts as nothing recorded. */
  function Named(o: Option<string>): Option<string> {
    if o == Some("") then None else o
  }

  /** The parent links of the rows, as the walk follows them. */
  function RowLinks(db: map<string, Meta>): (links: Links)
    ensures links.Keys == db.Keys && forall id :: id in db ==> links[id] == Named(db[id].parent)
  {
    map id | id in db :: Named(db[id].parent)
  }

  /** What pins a position: a recorded root for the one walk, a recorded attempt for the other. */
  type Stamped = Meta -> bool

  predicate HasRoot(m: Meta) {
    Named(m.root).Some?
  }

  predicate HasAttempt(m: Meta) {
    m.attempt.Some?
  }

  datatype Stop = Stop(hops: nat, at: string)

  /** Where the walk stops: at a stamped row, at one without a parent, where the parent has no row or was
      seen, or when the limit is used up. */
  function RowWalk(stamped: Stamped, db: map<string, Meta>, x: string, seen: set<string>, left: nat): (stop: Stop)
    requires x in db
    ensures stop.at in db
    decreases left
  {
    var parent := Named(db[x].parent);
    if stamped(db[x]) || parent.None? || parent.value !in db || parent.value in seen || left == 0 then Stop(0, x)
    else
      var rest := RowWalk(stamped, db, parent.value, seen + {parent.value}, left - 1);
      Stop(rest.hops + 1, rest.at)
  }

  function RootAt(db: map<string, Meta>, stop: Stop): string
    requires stop.at in db
  {
    if HasRoot(db[stop.at]) then db[stop.at].root.value else stop.at
  }

  function AttemptAt(db: map<string, Meta>, stop: Stop): int
    requires stop.at in db
  {
    if HasAttempt(db[stop.at]) then stop.hops + db[stop.at].attempt.value + 1 else stop.hops + 1
  }

  /** The place a continuation of `parent` records, when the walks are cut off after `limit` links. */
  function Derived(db: map<string, Meta>, parent: string, limit: nat): Position
    requires parent in db
  {
    Position(RootAt(db, RowWalk(HasRoot, db, parent, {parent}, limit)),
             AttemptAt(db, RowWalk(HasAttempt, db, parent, {parent}, limit)))
  }

  method DeriveRootRunId(db: map<string, Meta>, parent: string) returns (root: string)
    requires parent in db
    ensures root == Derived(db, parent, WALK_LIMIT).root
  {
    if HasRoot(db[parent]) {
      return db[parent].root.value;
    }
    if Named(db[parent].parent).None? {
      return parent;
    }
    var current := parent;
    var seen := {current};
    for i := 0 to WALK_LIMIT
      invariant current in db && !HasRoot(db[current])
      invariant RowWalk(HasRoot, db, parent, {parent}, WALK_LIMIT).at == RowWalk(HasRoot, db, current, seen, WALK_LIMIT - i).at
    {
      var next := Named(db[current].parent);
      if next.None? || next.value !in db {
        return current;
      }
      if next.value in seen {
        return current;
      }
      if HasRoot(db[next.value]) {
        return db[next.value].root.value;
      }
      seen := seen + {next.value};
      current := next.value;
    }
    root := current;
  }

  method DeriveRerunAttempt(db: map<string, Meta>, parent: string) returns (attempt: int)
    requires parent in db
    ensures attempt == Derived(db, parent, WALK_LIMIT).attempt
  {
    if HasAttempt(db[parent]) {
      return db[parent].attempt.value + 1;
    }
    if Named(db[parent].parent).None? {
      return 1;
    }
    var depth, current := 0, parent;
    var seen := {current};
    ghost var whole := RowWalk(HasAttempt, db, parent, {parent}, WALK_LIMIT);
    for i := 0 to WALK_LIMIT
      invariant current in db && !HasAttempt(db[current])
      invariant whole.at == RowWalk(HasAttempt, db, current, seen, WALK_LIMIT - i).at
      invariant whole.hops == depth + RowWalk(HasAttempt, db, current, seen, WALK_LIMIT - i).hops
    {
      var next := Named(db[current].parent);
      if next.None? || next.value !in db {
        break;
      }
      if next.value in seen {
        break;
      }
      if HasAttempt(db[next.value]) {
        depth := depth + db[next.value].attempt.value + 1;
        return depth + 1;
      }
      depth := depth + 1;
      seen := seen + {next.value};
      current := next.value;
    }
    attempt := depth + 1;
  }

  /** An empty parent or root counts as none: the row is its own root unless it names one. */
  lemma NoParentNoWalk(db: map<string, Meta>, x: string, limit: nat)
    requires x in db && (db[x].parent == None || db[x].parent == Some(""))
    ensures Derived(db, x, limit).root == if db[x].root == None || db[x].root == Some("") then x else db[x].root.value
    ensures Derived(db, x, limit).attempt == if db[x].attempt == None then 1 else db[x].attempt.value + 1
  {
  }

  // ----- when the derived place is the walked one -----

  /** The row answers the question: it is stamped, or has no parent at all. */
  predicate Anchors(stamped: Stamped, m: Meta) {
    stamped(m) || m.parent.None?
  }

  ghost predicate AnchorAt(stamped: Stamped, db: map<string, Meta>, x: string, hops: nat) {
    Climb(RowLinks(db), x, hops).Some? && Climb(RowLinks(db), x, hops).value in db
      && Anchors(stamped, db[Climb(RowLinks(db), x, hops).value])
  }

  /** Climbing through rows reaches one that answers the question, within the limit. */
  ghost predicate Anchored(stamped: Stamped, db: map<string, Meta>, x: string, limit: nat) {
    exists hops: nat :: hops <= limit && AnchorAt(stamped, db, x, hops)
  }

  /** What has been seen gives no answer and leads only to what has been seen, or to `x`. */
  ghost predicate SeenIsBarren(stamped: Stamped, db: map<string, Meta>, x: string, seen: set<string>) {
    && x in seen
    && forall y :: y in seen && y != x ==>
         y in db && !Anchors(stamped, db[y]) && Named(db[y].parent).Some? && Named(db[y].parent).value in seen
  }

  lemma {:induction false} BarrenCycle(stamped: Stamped, db: map<string, Meta>, seen: set<string>, y: string, hops: nat)
    requires forall z :: z in seen ==> z in db && !Anchors(stamped, db[z]) && Named(db[z].parent).Some? && Named(db[z].parent).value in seen
    requires y in seen
    ensures !AnchorAt(stamped, db, y, hops)
    decreases hops
  {
    if hops > 0 { BarrenCycle(stamped, db, seen, Named(db[y].parent).value, hops - 1); }
  }

  lemma StepsUp(stamped: Stamped, db: map<string, Meta>, x: string, limit: nat)
    requires x in db && !Anchors(stamped, db[x]) && limit > 0 && Named(db[x].parent).Some?
    ensures Anchored(stamped, db, x, limit) <==> Anchored(stamped, db, Named(db[x].parent).value, limit - 1)
  {
    var y := Named(db[x].parent).value;
    if Anchored(stamped, db, x, limit) {
      var hops: nat :| hops <= limit && AnchorAt(stamped, db, x, hops);
      assert AnchorAt(stamped, db, y, hops - 1);
    }
    if Anchored(stamped, db, y, limit - 1) {
      var hops: nat :| hops <= limit - 1 && AnchorAt(stamped, db, y, hops);
      assert AnchorAt(stamped, db, x, hops + 1);
    }
  }

  /** The walk stops at a row that answers the question exactly when there is one to be reached. */
  lemma {:induction false} RowWalkFinds(stamped: Stamped, db: map<string, Meta>, x: string, seen: set<string>, left: nat)
    requires x in db && SeenIsBarren(stamped, db, x, seen)
    ensures var stop := RowWalk(stamped, db, x, seen, left);
      && Climb(RowLinks(db), x, stop.hops) == Some(stop.at)
      && (Anchors(stamped, db[stop.at]) <==> Anchored(stamped, db, x, left))
    decreases left
  {
    var parent := Named(db[x].parent);
    if Anchors(stamped, db[x]) {
      assert AnchorAt(stamped, db, x, 0);
    } else if parent.None? || parent.value !in db {
      forall hops: nat ensures !AnchorAt(stamped, db, x, hops) {
        if hops >= 1 && parent.Some? {
          assert Climb(RowLinks(db), x, hops) == Climb(RowLinks(db), parent.value, hops - 1);
        }
      }
    } else if parent.value in seen {
      forall hops: nat ensures !AnchorAt(stamped, db, x, hops) { BarrenCycle(stamped, db, seen, x, hops); }
    } else if left == 0 {
      assert !AnchorAt(stamped, db, x, 0);
    } else {
      RowWalkFinds(stamped, db, parent.value, seen + {parent.value}, left - 1);
      StepsUp(stamped, db, x, left);
    }
  }

  /** Rows' links are links of the whole store. */
  lemma RowsClimbTheStore(store: Store, x: string, hops: nat, y: string)
    requires Climb(RowLinks(store.db), x, hops) == Some(y)
    ensures Climb(AllLinks(store), x, hops) == Some(y)
  {
    ClimbMonotone(RowLinks(store.db), AllLinks(store), x, hops);
  }

  lemma EndsAbove(links: Links, x: string, a: nat, y: string, b: nat, root: string)
    requires Climb(links, x, a) == Some(y) && EndsAt(links, y, b, root)
    ensures EndsAt(links, x, a + b, root)
  {
    ClimbAdd(links, x, a, b);
  }

  /** The root read off where a walk stopped is where walking ends exactly when the row answers. */
  lemma RootIsTrue(store: Store, parent: string, stop: Stop)
    requires Truthful(store) && stop.at in store.db && Climb(AllLinks(store), parent, stop.hops) == Some(stop.at)
    ensures Anchors(HasRoot, store.db[stop.at]) <==>
      exists hops: nat :: EndsAt(AllLinks(store), parent, hops, RootAt(store.db, stop))
  {
    var links, m := AllLinks(store), store.db[stop.at];
    assert AllRuns(store)[stop.at] == m && RecordIsWalk(store, stop.at);
    if HasRoot(m) {
      var hops: nat, root :| Records(links, stop.at, m, hops, root);
      EndsAbove(links, parent, stop.hops, stop.at, hops, root);
      assert root == RootAt(store.db, stop);
    } else if m.parent.None? {
      assert links[stop.at].None?;
      assert EndsAt(links, parent, stop.hops, RootAt(store.db, stop));
    } else {
      assert links[stop.at].Some?;
    }
  }

  /** The attempt read off there is one more than the parent's depth exactly when the row answers. */
  lemma AttemptIsTrue(store: Store, parent: string, stop: Stop)
    requires Truthful(store) && stop.at in store.db && Climb(AllLinks(store), parent, stop.hops) == Some(stop.at)
    ensures Anchors(HasAttempt, store.db[stop.at]) <==> IsDepth(AllLinks(store), parent, AttemptAt(store.db, stop) - 1)
  {
    var links, m := AllLinks(store), store.db[stop.at];
    assert AllRuns(store)[stop.at] == m && RecordIsWalk(store, stop.at);
    if HasAttempt(m) {
      var hops: nat, root :| Records(links, stop.at, m, hops, root);
      EndsAbove(links, parent, stop.hops, stop.at, hops, root);
    } else if m.parent.None? {
      assert EndsAt(links, parent, stop.hops, stop.at);
    } else {
      assert links[stop.at].Some?;
    }
  }

  ghost predicate IsDepth(links: Links, x: string, depth: int) {
    depth >= 0 && exists root :: EndsAt(links, x, depth, root)
  }

  /** Both walks through the rows find an answer. */
  ghost predicate FullyAnchored(db: map<string, Meta>, parent: string, limit: nat) {
    Anchored(HasRoot, db, parent, limit) && Anchored(HasAttempt, db, parent, limit)
  }

  /** In a truthful store, the derived place is the one walking the whole store gives if and only if both
      walks through the rows reach a row that answers the question. */
  lemma DerivedIsWalked(store: Store, parent: string, limit: nat)
    requires Truthful(store) && parent in store.db
    ensures var at := Derived(store.db, parent, limit);
      (at.attempt >= 1 && EndsAt(AllLinks(store), parent, at.attempt - 1, at.root)) <==> FullyAnchored(store.db, parent, limit)
  {
    var links, at := AllLinks(store), Derived(store.db, parent, limit);
    var a := RowWalk(HasRoot, store.db, parent, {parent}, limit);
    var b := RowWalk(HasAttempt, store.db, parent, {parent}, limit);
    StopIsOnTheWay(HasRoot, store, parent, limit);
    StopIsOnTheWay(HasAttempt, store, parent, limit);
    RootIsTrue(store, parent, a);
    AttemptIsTrue(store, parent, b);
    if FullyAnchored(store.db, parent, limit) {
      var hops: nat :| EndsAt(links, parent, hops, at.root);
      var root :| EndsAt(links, parent, at.attempt - 1, root);
      StopIsUnique(links, parent, hops, at.root, at.attempt - 1, root);
    }
  }

  lemma StopIsOnTheWay(stamped: Stamped, store: Store, parent: string, limit: nat)
    requires parent in store.db
    ensures var stop := RowWalk(stamped, store.db, parent, {parent}, limit);
      && Climb(AllLinks(store), parent, stop.hops) == Some(stop.at)
      && (Anchors(stamped, store.db[stop.at]) <==> Anchored(stamped, store.db, parent, limit))
  {
    RowWalkFinds(stamped, store.db, parent, {parent}, limit);
    var stop := RowWalk(stamped, store.db, parent, {parent}, limit);
    RowsClimbTheStore(store, parent, stop.hops, stop.at);
  }
}
