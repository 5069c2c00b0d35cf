/**
 * An abstract git: trees are maps from path to blob, commits are content-addressed values
 * (two commits are the same commit exactly when parents, tree, message and stamp agree),
 * and each command is one function on the state it reads or writes.
 */
module Git {
  import opened Text

  type Path = string

  datatype Blob = FileBlob(bytes: string, executable: bool) | LinkBlob(target: string)

  /** What `lstat` finds at a worktree path; an absent path is simply not in the map. */
  datatype Node = Regular(bytes: string, executable: bool) | Link(target: string) | Directory | Special

  type Tree = map<Path, Blob>

  datatype Commit = Commit(parents: seq<Commit>, tree: Tree, message: string, stamp: nat)

  /** How `git add` reads its arguments: which paths they pick together, and whether it refuses because
      one of them matches none of the names it knows. */
  datatype Pathspec = Pathspec(picks: (seq<Path>, Path) -> bool, misses: (seq<Path>, set<Path>) -> bool)

  /** A path that is not read as pathspec magic. */
  predicate IsPlain(p: Path) {
    !StartsWith(p, ":")
  }

  /** How git matches: arguments without a leading colon each pick the path they spell, whatever else
      they pick. */
  ghost predicate PlainPicksItself(spec: Pathspec) {
    forall args, p :: p in args && (forall a :: a in args ==> IsPlain(a)) ==> spec.picks(args, p)
  }

  datatype Push = Push(branch: string, tip: Commit)

  /** Index entries git does not compare with the worktree: those marked assume-unchanged, or vouched for by
      a file monitor or cached file times, and those marked skip-worktree. */
  datatype Flags = Flags(assumed: set<Path>, sparse: set<Path>)

  const NO_FLAGS := Flags({}, {})

  /** The heads of a merge that has not been committed yet, and whether fast-forwarding was ruled out. */
  datatype Merge = Merge(heads: seq<Commit>, noFf: bool)

  const NO_MERGE := Merge([], false)

  /** A run's worktree and repository. `overlay` is what read commands see in place of a commit
      when grafts, replace refs or a shallow boundary are present; `pushes` is everything
      the harness has sent to origin. */
  datatype Repo = Repo(
    worktree: map<Path, Node>,
    index: Tree,
    flags: Flags,
    merge: Merge,
    branches: map<string, Commit>,
    head: string,
    replaceRefs: bool,
    grafts: bool,
    shallow: bool,
    overlay: map<Commit, Commit>,
    pushes: seq<Push>
  )

  predicate Tampered(s: Repo) {
    s.replaceRefs || s.grafts || s.shallow
  }

  /** Without replace refs, grafts or shallowness, reads see the real objects. */
  ghost predicate WellFormed(s: Repo) {
    !Tampered(s) ==> s.overlay == map[]
  }

  function Seen(overlay: map<Commit, Commit>, c: Commit): Commit {
    if c in overlay then overlay[c] else c
  }

  // ----- history -----

  function Reach(c: Commit): (r: set<Commit>)
    ensures c in r
    decreases c, 1
  {
    {c} + ReachAll(c.parents)
  }

  function ReachAll(cs: seq<Commit>): set<Commit>
    decreases cs, 0
  {
    if cs == [] then {} else Reach(cs[0]) + ReachAll(cs[1..])
  }

  /** `git rev-list --count base..tip`. */
  function Beyond(base: Commit, tip: Commit): nat {
    |Reach(tip) - Reach(base)|
  }

  ghost function Size(c: Commit): nat
    decreases c, 1
  {
    1 + SizeAll(c.parents)
  }

  ghost function SizeAll(cs: seq<Commit>): nat
    decreases cs, 0
  {
    if cs == [] then 0 else Size(cs[0]) + SizeAll(cs[1..])
  }

  lemma {:induction false} ReachIsSmaller(c: Commit, x: Commit)
    requires x in Reach(c)
    ensures Size(x) <= Size(c)
    decreases c, 1
  {
    if x != c {
      ReachAllIsSmaller(c.parents, x);
    }
  }

  lemma {:induction false} ReachAllIsSmaller(cs: seq<Commit>, x: Commit)
    requires x in ReachAll(cs)
    ensures Size(x) <= SizeAll(cs)
    decreases cs, 0
  {
    if x in Reach(cs[0]) {
      ReachIsSmaller(cs[0], x);
    } else {
      ReachAllIsSmaller(cs[1..], x);
    }
  }

  lemma {:induction false} ReachAllMember(cs: seq<Commit>, x: Commit)
    ensures x in ReachAll(cs) <==> exists i :: 0 <= i < |cs| && x in Reach(cs[i])
    decreases |cs|
  {
    if cs != [] {
      ReachAllMember(cs[1..], x);
      if i :| 0 <= i < |cs[1..]| && x in Reach(cs[1..][i]) { assert x in Reach(cs[i + 1]); }
      if i :| 0 < i < |cs| && x in Reach(cs[i]) { assert cs[1..][i - 1] == cs[i]; }
    }
  }

  /** What is reachable from a reachable commit is reachable. */
  lemma {:induction false} ReachIsClosed(c: Commit, x: Commit)
    requires x in Reach(c)
    ensures Reach(x) <= Reach(c)
    decreases c, 1
  {
    if x != c { ReachAllIsClosed(c.parents, x); }
  }

  lemma {:induction false} ReachAllIsClosed(cs: seq<Commit>, x: Commit)
    requires x in ReachAll(cs)
    ensures Reach(x) <= ReachAll(cs)
    decreases cs, 0
  {
    if x in Reach(cs[0]) {
      ReachIsClosed(cs[0], x);
    } else {
      ReachAllIsClosed(cs[1..], x);
    }
  }

  // ----- the parents of a new commit -----

  /** Another head leads to this one, or is the same and comes first. */
  predicate Covered(cs: seq<Commit>, i: nat)
    requires i < |cs|
  {
    exists j :: 0 <= j < |cs| && j != i && cs[i] in Reach(cs[j]) && (cs[j] == cs[i] ==> j < i)
  }

  function Uncovered(cs: seq<Commit>, n: nat): seq<Commit>
    requires n <= |cs|
  {
    if n == 0 then [] else Uncovered(cs, n - 1) + (if Covered(cs, n - 1) then [] else [cs[n - 1]])
  }

  /** The parents `git commit` records: HEAD and the merge heads, without those another one leads to unless
      fast-forwarding was ruled out. */
  function ParentsOf(head: Commit, merge: Merge): seq<Commit> {
    var all := [head] + merge.heads;
    if merge.noFf then all else Uncovered(all, |all|)
  }

  lemma {:induction false} UncoveredMember(cs: seq<Commit>, n: nat, i: nat)
    requires i < n <= |cs| && !Covered(cs, i)
    ensures cs[i] in Uncovered(cs, n)
    decreases n
  {
    if i < n - 1 { UncoveredMember(cs, n - 1, i); }
  }

  lemma {:induction false} UncoveredWithin(cs: seq<Commit>, n: nat, x: Commit)
    requires n <= |cs| && x in Uncovered(cs, n)
    ensures x in cs
    decreases n
  {
    if x !in Uncovered(cs, n - 1) {
      assert x == cs[n - 1];
    } else {
      UncoveredWithin(cs, n - 1, x);
    }
  }

  lemma {:induction false} SizeWithin(cs: seq<Commit>, i: nat)
    requires i < |cs|
    ensures Size(cs[i]) <= SizeAll(cs)
    decreases |cs|
  {
    if i > 0 { SizeWithin(cs[1..], i - 1); }
  }

  lemma {:induction false} ProperlyReachedIsSmaller(c: Commit, x: Commit)
    requires x in Reach(c) && x != c
    ensures Size(x) < Size(c)
  {
    ReachAllIsSmaller(c.parents, x);
  }

  lemma {:induction false} KeptIsUncovered(cs: seq<Commit>, n: nat, x: Commit) returns (i: nat)
    requires n <= |cs| && x in Uncovered(cs, n)
    ensures i < n && cs[i] == x && !Covered(cs, i)
    decreases n
  {
    if x in Uncovered(cs, n - 1) {
      i := KeptIsUncovered(cs, n - 1, x);
    } else {
      i := n - 1;
    }
  }

  lemma {:induction false} KeptAreDistinct(cs: seq<Commit>, n: nat)
    requires n <= |cs|
    ensures Distinct(Uncovered(cs, n))
    decreases n
  {
    if n > 0 {
      KeptAreDistinct(cs, n - 1);
      if cs[n - 1] in Uncovered(cs, n - 1) {
        var i := KeptIsUncovered(cs, n - 1, cs[n - 1]);
        assert Covered(cs, n - 1);
      }
    }
  }

  /** Unless fast-forwarding was ruled out, no parent is recorded twice or leads to another; if it was, HEAD
      and every pending head are recorded. */
  lemma ParentsAreIndependent(head: Commit, merge: Merge)
    ensures merge.noFf ==> ParentsOf(head, merge) == [head] + merge.heads
    ensures !merge.noFf ==> Distinct(ParentsOf(head, merge))
    ensures !merge.noFf ==> forall x, y :: x in ParentsOf(head, merge) && y in ParentsOf(head, merge) && x != y ==> x !in Reach(y)
  {
    var all := [head] + merge.heads;
    if !merge.noFf {
      KeptAreDistinct(all, |all|);
      forall x, y | x in ParentsOf(head, merge) && y in ParentsOf(head, merge) && x != y ensures x !in Reach(y) {
        var i := KeptIsUncovered(all, |all|, x);
        var j := KeptIsUncovered(all, |all|, y);
      }
    }
  }

  /** Every head is reachable from one that is kept. */
  lemma {:induction false} KeptHeadCovers(cs: seq<Commit>, i: nat) returns (k: nat)
    requires i < |cs|
    ensures k < |cs| && !Covered(cs, k) && cs[i] in Reach(cs[k])
    decreases SizeAll(cs) - Size(cs[i]), i
  {
    SizeWithin(cs, i);
    if !Covered(cs, i) {
      k := i;
    } else {
      var j :| 0 <= j < |cs| && j != i && cs[i] in Reach(cs[j]) && (cs[j] == cs[i] ==> j < i);
      SizeWithin(cs, j);
      if cs[j] != cs[i] { ProperlyReachedIsSmaller(cs[j], cs[i]); }
      k := KeptHeadCovers(cs, j);
      ReachIsClosed(cs[k], cs[j]);
    }
  }

  /** Dropping covered heads loses no history. */
  lemma ParentsReach(head: Commit, merge: Merge)
    ensures ReachAll(ParentsOf(head, merge)) == ReachAll([head] + merge.heads)
  {
    var all := [head] + merge.heads;
    var kept := ParentsOf(head, merge);
    if !merge.noFf {
      forall x | x in ReachAll(all) ensures x in ReachAll(kept) {
        ReachAllMember(all, x);
        var i :| 0 <= i < |all| && x in Reach(all[i]);
        var k := KeptHeadCovers(all, i);
        UncoveredMember(all, |all|, k);
        ReachIsClosed(all[k], all[i]);
        ReachFromMember(kept, all[k], x);
      }
      forall x | x in ReachAll(kept) ensures x in ReachAll(all) {
        ReachAllMember(kept, x);
        var i :| 0 <= i < |kept| && x in Reach(kept[i]);
        UncoveredWithin(all, |all|, kept[i]);
        ReachFromMember(all, kept[i], x);
      }
    }
  }

  lemma ReachFromMember(cs: seq<Commit>, c: Commit, x: Commit)
    requires c in cs && x in Reach(c)
    ensures x in ReachAll(cs)
  {
    var i :| 0 <= i < |cs| && cs[i] == c;
    ReachAllMember(cs, x);
  }

  /** Exactly one commit beyond `base`, and built on it. */
  predicate IsOneOn(base: Commit, c: Commit) {
    base in Reach(c) && Reach(c) - Reach(base) == {c}
  }

  /** All that is being merged is already part of `base`. */
  ghost predicate MergesNothingNew(base: Commit, merge: Merge) {
    forall i :: 0 <= i < |merge.heads| ==> merge.heads[i] in Reach(base)
  }

  lemma MintedReach(base: Commit, merge: Merge, c: Commit)
    requires c.parents == ParentsOf(base, merge)
    ensures Reach(c) == {c} + Reach(base) + ReachAll(merge.heads)
  {
    ParentsReach(base, merge);
    assert ([base] + merge.heads)[1..] == merge.heads;
  }

  lemma MintedIsNew(base: Commit, merge: Merge, c: Commit)
    requires c.parents == ParentsOf(base, merge)
    ensures c !in Reach(base) && c !in ReachAll(merge.heads) && base in Reach(c) && c != base
  {
    MintedReach(base, merge, c);
    ParentsReach(base, merge);
    var all := [base] + merge.heads;
    assert all[1..] == merge.heads;
    if c in ReachAll(all) {
      ReachAllIsSmaller(c.parents, c);
    }
  }

  /** A commit made on `base` with these heads pending is the only one beyond `base` exactly when the merge
      brings in nothing new. */
  lemma MintedBeyond(base: Commit, merge: Merge, c: Commit)
    requires c.parents == ParentsOf(base, merge)
    ensures base in Reach(c) && c != base && Beyond(base, c) >= 1
    ensures MergesNothingNew(base, merge) <==> IsOneOn(base, c)
    ensures MergesNothingNew(base, merge) <==> Beyond(base, c) == 1
  {
    MintedReach(base, merge, c);
    MintedIsNew(base, merge, c);
    var extra := Reach(c) - Reach(base);
    assert c in extra;
    if MergesNothingNew(base, merge) {
      forall x | x in ReachAll(merge.heads) ensures x in Reach(base) {
        ReachAllMember(merge.heads, x);
        var i :| 0 <= i < |merge.heads| && x in Reach(merge.heads[i]);
        ReachIsClosed(base, merge.heads[i]);
      }
      assert extra == {c};
    } else {
      var i :| 0 <= i < |merge.heads| && merge.heads[i] !in Reach(base);
      ReachAllMember(merge.heads, merge.heads[i]);
      assert merge.heads[i] in extra;
      TwoMembers(extra, c, merge.heads[i]);
    }
  }

  lemma TwoMembers<T>(s: set<T>, a: T, b: T)
    requires a in s && b in s && a != b
    ensures |s| >= 2
  {
    assert |s| == |s - {a}| + 1 && b in s - {a};
    assert s - {a} == (s - {a} - {b}) + {b};
  }

  /** The ordinary case: no merge is pending. */
  lemma MintedIsOneBeyond(base: Commit, c: Commit)
    requires c.parents == ParentsOf(base, NO_MERGE)
    ensures c.parents == [base] && Beyond(base, c) == 1 && c != base
  {
    MintedBeyond(base, NO_MERGE, c);
    var all := [base] + NO_MERGE.heads;
    assert all == [base] && !Covered(all, 0);
    assert Uncovered(all, 1) == Uncovered(all, 0) + [base];
  }

  // ----- trees, index and worktree -----

  function AsBlob(n: Node): Option<Blob> {
    match n
    case Regular(b, x) => Some(FileBlob(b, x))
    case Link(t) => Some(LinkBlob(t))
    case Directory => None
    case Special => None
  }

  /** Nothing git stores is lost or confused: content, executable bit and link target all count. */
  lemma BlobsTellNodesApart(a: Node, b: Node)
    ensures AsBlob(a).Some? <==> a.Regular? || a.Link?
    ensures AsBlob(a).Some? && AsBlob(a) == AsBlob(b) ==> a == b
  {
  }

  function BlobAt(worktree: map<Path, Node>, p: Path): Option<Blob> {
    if p in worktree then AsBlob(worktree[p]) else None
  }

  /** `git diff --name-only a b`, as a set. */
  function Diff(a: Tree, b: Tree): (r: set<Path>)
    ensures forall p :: p in r <==> Lookup(a, p) != Lookup(b, p)
  {
    set p | p in a.Keys + b.Keys && Lookup(a, p) != Lookup(b, p)
  }

  lemma NoDiffMeansEqual(a: Tree, b: Tree)
    ensures Diff(a, b) == {} <==> a == b
  {
    if Diff(a, b) == {} {
      assert forall p :: Lookup(a, p) == Lookup(b, p);
      assert a.Keys == b.Keys by {
        forall p ensures p in a <==> p in b { assert Lookup(a, p) == Lookup(b, p); }
      }
      forall p | p in a ensures a[p] == b[p] { assert Lookup(a, p) == Lookup(b, p); }
    }
  }

  /** Git takes the entry as it is, without looking at the worktree. */
  predicate Held(index: Tree, flags: Flags, q: Path) {
    q in index && (q in flags.assumed || q in flags.sparse)
  }

  /** What git takes to be in the worktree at a tracked path. */
  function Found(worktree: map<Path, Node>, index: Tree, flags: Flags, p: Path): Option<Blob> {
    if p !in index then None else if Held(index, flags, p) then Some(index[p]) else BlobAt(worktree, p)
  }

  /** `git diff --name-only HEAD`: tracked paths whose content is not HEAD's, as far as git looks. */
  function Dirty(worktree: map<Path, Node>, index: Tree, flags: Flags, tree: Tree): set<Path> {
    set p | p in index.Keys + tree.Keys && Lookup(tree, p) != Found(worktree, index, flags, p)
  }

  /** A path `git add` brings up to date: picked, and not held. */
  predicate Takes(index: Tree, flags: Flags, args: seq<Path>, spec: Pathspec, q: Path) {
    spec.picks(args, q) && !Held(index, flags, q)
  }

  /** `git add -- args`: the index takes the worktree's content at every path git brings up to date. */
  function Added(index: Tree, flags: Flags, worktree: map<Path, Node>, args: seq<Path>, spec: Pathspec): (r: Tree)
    ensures forall q ::
      Lookup(r, q) == (if Takes(index, flags, args, spec, q) then BlobAt(worktree, q) else Lookup(index, q))
  {
    map q | q in index.Keys + worktree.Keys &&
            (if Takes(index, flags, args, spec, q) then BlobAt(worktree, q).Some? else q in index)
      :: if Takes(index, flags, args, spec, q) then BlobAt(worktree, q).value else index[q]
  }

  /** The names an argument may match; entries outside the sparse checkout do not count. */
  function Names(index: Tree, flags: Flags, worktree: map<Path, Node>): set<Path> {
    (index.Keys - flags.sparse) + (worktree.Keys - (index.Keys * flags.sparse))
  }

  /** `git add` refuses an argument that matches nothing, and a file it cannot store. */
  predicate AddSucceeds(index: Tree, flags: Flags, worktree: map<Path, Node>, args: seq<Path>, spec: Pathspec) {
    && !spec.misses(args, Names(index, flags, worktree))
    && (forall q | q in worktree && Takes(index, flags, args, spec, q) :: !worktree[q].Special?)
  }

  /** Adding twice is adding once. */
  lemma AddedTwice(index: Tree, flags: Flags, worktree: map<Path, Node>, args: seq<Path>, spec: Pathspec)
    ensures var once := Added(index, flags, worktree, args, spec);
      Added(once, flags, worktree, args, spec) == once
  {
    var once := Added(index, flags, worktree, args, spec);
    var twice := Added(once, flags, worktree, args, spec);
    forall q ensures q !in Diff(twice, once) {
      assert Lookup(once, q) == if Takes(index, flags, args, spec, q) then BlobAt(worktree, q) else Lookup(index, q);
    }
    NoDiffMeansEqual(twice, once);
  }

  // ----- messages -----

  /** The text without the newlines at its end. */
  function StripNewlines(m: string): (r: string)
    ensures |r| <= |m| && r == m[..|r|] && forall i :: |r| <= i < |m| ==> m[i] == '\n'
    ensures r != "" ==> r[|r| - 1] != '\n'
  {
    if m != "" && m[|m| - 1] == '\n' then StripNewlines(m[..|m| - 1]) else m
  }

  /** The message as `git commit --cleanup=verbatim -m` stores it. */
  function Stored(m: string): string {
    if m != "" && m[|m| - 1] == '\n' then m else m + "\n"
  }

  /** The message with its last line ended: nothing is lost, and a newline is added only where there is none. */
  lemma StoredEndsItsLine(m: string)
    ensures m <= Stored(m) && Stored(m) != "" && Stored(m)[|Stored(m)| - 1] == '\n'
    ensures Stored(m) == m || (|Stored(m)| == |m| + 1 && (m == "" || m[|m| - 1] != '\n'))
  {
  }

  lemma StoredStripsBack(m: string)
    ensures StripNewlines(Stored(m)) == StripNewlines(m)
  {
    if Stored(m) != m {
      assert (m + "\n")[..|m|] == m;
    }
  }

  // ----- `git diff -z` output -----

  /** The bytes `git diff -z --name-only` prints: each path followed by NUL. */
  function RenderZ(paths: seq<Path>): string {
    if paths == [] then "" else paths[0] + ['\0'] + RenderZ(paths[1..])
  }

  function NonEmpty(paths: seq<string>): (r: seq<string>)
    ensures forall p :: p in r <==> p in paths && p != ""
  {
    if paths == [] then []
    else if paths[0] == "" then NonEmpty(paths[1..])
    else [paths[0]] + NonEmpty(paths[1..])
  }

  function ParsePathList(stdout: string): (r: seq<Path>)
    ensures forall p :: p in r ==> p != ""
  {
    NonEmpty(Split(stdout, '\0'))
  }

  /** No path is trimmed, merged or lost on the way through the NUL-separated listing. */
  lemma {:induction false} PathListRoundTrip(paths: seq<Path>)
    requires forall p :: p in paths ==> p != "" && '\0' !in p
    ensures ParsePathList(RenderZ(paths)) == paths
  {
    if paths != [] {
      var rest := paths[1..];
      assert forall p :: p in rest ==> p in paths;
      PathListRoundTrip(rest);
      SplitAt(paths[0], '\0', RenderZ(rest));
      SplitWithout(paths[0], '\0');
      var tail := Split(RenderZ(rest), '\0');
      assert ([paths[0]] + tail)[1..] == tail;
      assert paths == [paths[0]] + rest;
    }
  }
}
