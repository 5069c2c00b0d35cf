/** What the diff scan looks for, said on the patch itself: stretches of lines, positions and counts. */
module DiffMeaning {
  import opened Text
  import opened DiffScan

  // ----- headers -----

  predicate StartsFile(line: string) {
    |line| >= 11 && line[..11] == "diff --git "
  }

  ghost predicate IsWord(u: string) {
    u != "" && forall i :: 0 <= i < |u| ==> !IsWhite(u[i])
  }

  function HeaderFor(u: string, w: string): string {
    "diff --git " + ("a/" + (u + (" b/tests/" + w)))
  }

  lemma {:induction false} WordThenBlank(u: string, rest: string)
    requires (forall i :: 0 <= i < |u| ==> !IsWhite(u[i])) && (rest == "" || IsWhite(rest[0]))
    ensures WordLength(u + rest) == |u|
    decreases |u|
  {
    if u == "" {
      assert u + rest == rest;
    } else {
      assert (u + rest)[1..] == u[1..] + rest;
      WordThenBlank(u[1..], rest);
    }
  }

  lemma {:induction false} WordHasNoBlank(s: string)
    ensures forall i :: 0 <= i < WordLength(s) ==> !IsWhite(s[i])
    decreases |s|
  {
    if s != "" && !IsWhite(s[0]) {
      WordHasNoBlank(s[1..]);
      forall i | 0 < i < WordLength(s) ensures !IsWhite(s[i]) { assert s[i] == s[1..][i - 1]; }
    }
  }

  lemma Remainder(s: string, prefix: string)
    requires StartsWith(s, prefix)
    ensures s == prefix + s[|prefix|..]
  {
  }

  /** A header names a file under `tests/` exactly when it reads `diff --git a/<word> b/tests/` and on. */
  lemma NamesTestMeans(line: string)
    ensures NamesTest(line) <==> exists u, w :: IsWord(u) && line == HeaderFor(u, w)
  {
    if NamesTest(line) {
      var rest := line[|DIFF_HEADER| + 2..];
      var n := WordLength(rest);
      WordHasNoBlank(rest);
      Remainder(line, DIFF_HEADER + "a/");
      Remainder(rest[n..], " b/tests/");
      var u, w := rest[..n], rest[n..][9..];
      assert rest == u + (" b/tests/" + w);
      HeaderParts(u, w);
      assert IsWord(u) && line == HeaderFor(u, w);
    }
    if u, w :| IsWord(u) && line == HeaderFor(u, w) {
      HeaderNamesTest(u, w);
    }
  }

  lemma HeaderParts(u: string, w: string)
    ensures HeaderFor(u, w) == DIFF_HEADER + "a/" + (u + (" b/tests/" + w))
  {
    Assoc(DIFF_HEADER, "a/", u + (" b/tests/" + w));
  }

  lemma HeaderNamesTest(u: string, w: string)
    requires IsWord(u)
    ensures NamesTest(HeaderFor(u, w)) && StartsFile(HeaderFor(u, w))
  {
    HeaderParts(u, w);
    var tail := " b/tests/" + w;
    assert HeaderFor(u, w)[..|DIFF_HEADER| + 2] == DIFF_HEADER + "a/";
    assert HeaderFor(u, w)[|DIFF_HEADER| + 2..] == u + tail;
    assert tail[0] == ' ';
    WordThenBlank(u, tail);
    assert (u + tail)[|u|..] == tail && tail[..9] == " b/tests/";
    assert HeaderFor(u, w)[..11] == DIFF_HEADER;
  }

  // ----- what speaks against a file -----

  predicate IsDeletion(line: string) {
    |line| >= 17 && line[..17] == "deleted file mode"
  }

  /** `+`, but not `+++`. */
  predicate IsAddition(line: string) {
    |line| >= 1 && line[0] == '+' && (|line| >= 3 && line[1] == '+' ==> line[2] != '+')
  }

  predicate IsRemoval(line: string) {
    |line| >= 1 && line[0] == '-' && (|line| >= 3 && line[1] == '-' ==> line[2] != '-')
  }

  lemma LineKinds(line: string)
    ensures IsHeader(line) <==> StartsFile(line)
    ensures Deletes(line) <==> IsDeletion(line)
    ensures IsAdded(line) <==> IsAddition(line)
    ensures IsRemoved(line) <==> IsRemoval(line)
  {
    AddedLines(line);
    RemovedLines(line);
  }

  lemma AddedLines(line: string)
    ensures IsAdded(line) <==> IsAddition(line)
  {
    if |line| >= 3 { assert line[..3] == [line[0], line[1], line[2]]; }
    if |line| >= 1 { assert line[..1] == [line[0]]; }
  }

  lemma RemovedLines(line: string)
    ensures IsRemoved(line) <==> IsRemoval(line)
  {
    if |line| >= 3 { assert line[..3] == [line[0], line[1], line[2]]; }
    if |line| >= 1 { assert line[..1] == [line[0]]; }
  }

  /** Where a line is added that defines a test. */
  function Gains(p: Patterns, body: seq<string>, from: nat): set<nat> {
    set i: nat | from <= i < |body| && IsAddition(body[i]) && p.defines(body[i])
  }

  function Losses(p: Patterns, body: seq<string>, from: nat): set<nat> {
    set i: nat | from <= i < |body| && IsRemoval(body[i]) && p.defines(body[i])
  }

  lemma {:induction false} GainsAreCounted(p: Patterns, body: seq<string>, from: nat)
    requires from <= |body|
    ensures Added(p, body[from..]) == |Gains(p, body, from)|
    decreases |body| - from
  {
    if from < |body| {
      GainsAreCounted(p, body, from + 1);
      AddedLines(body[from]);
      assert body[from..][1..] == body[from + 1..];
      if IsAddition(body[from]) && p.defines(body[from]) {
        assert Gains(p, body, from) == Gains(p, body, from + 1) + {from};
      } else {
        assert Gains(p, body, from) == Gains(p, body, from + 1);
      }
    }
  }

  lemma {:induction false} LossesAreCounted(p: Patterns, body: seq<string>, from: nat)
    requires from <= |body|
    ensures Removed(p, body[from..]) == |Losses(p, body, from)|
    decreases |body| - from
  {
    if from < |body| {
      LossesAreCounted(p, body, from + 1);
      RemovedLines(body[from]);
      assert body[from..][1..] == body[from + 1..];
      if IsRemoval(body[from]) && p.defines(body[from]) {
        assert Losses(p, body, from) == Losses(p, body, from + 1) + {from};
      } else {
        assert Losses(p, body, from) == Losses(p, body, from + 1);
      }
    }
  }

  /** The file is deleted, a line is added that disables a test, or more definitions go than come. */
  predicate Grounds(p: Patterns, body: seq<string>) {
    || (exists i :: 0 <= i < |body| && IsDeletion(body[i]))
    || (exists i :: 0 <= i < |body| && IsAddition(body[i]) && p.disables(body[i]))
    || |Losses(p, body, 0)| > |Gains(p, body, 0)|
  }

  lemma WeakensMeans(p: Patterns, body: seq<string>)
    ensures Weakens(p, body, 0, 0) <==> Grounds(p, body)
  {
    GainsAreCounted(p, body, 0);
    LossesAreCounted(p, body, 0);
    assert body[0..] == body;
    forall i | 0 <= i < |body|
      ensures Condemns(p, body[i]) <==> IsDeletion(body[i]) || (IsAddition(body[i]) && p.disables(body[i]))
    {
      LineKinds(body[i]);
    }
  }

  // ----- the whole patch -----

  /** Lines `i` to `j` are one file: a header, and what follows it up to the next header or the end. */
  ghost predicate IsFile(lines: seq<string>, i: nat, j: nat) {
    && i < j <= |lines| && StartsFile(lines[i])
    && (forall k :: i < k < j ==> !StartsFile(lines[k]))
    && (j < |lines| ==> StartsFile(lines[j]))
  }

  ghost predicate IsWeakFile(p: Patterns, lines: seq<string>, i: nat, j: nat) {
    && IsFile(lines, i, j)
    && (exists u, w :: IsWord(u) && lines[i] == HeaderFor(u, w))
    && Grounds(p, lines[i + 1..j])
  }

  lemma {:induction false} PreambleIs(lines: seq<string>, j: nat)
    requires j <= |lines| && (forall k :: 0 <= k < j ==> !StartsFile(lines[k])) && (j < |lines| ==> StartsFile(lines[j]))
    ensures Preamble(lines) == lines[..j]
    decreases |lines|
  {
    if lines != [] {
      LineKinds(lines[0]);
      if j > 0 {
        PreambleIs(lines[1..], j - 1);
        assert lines[..j] == [lines[0]] + lines[1..][..j - 1];
      }
    }
  }

  lemma {:induction false} NextHeader(lines: seq<string>, from: nat) returns (j: nat)
    requires from <= |lines|
    ensures from <= j <= |lines| && (forall k :: from <= k < j ==> !StartsFile(lines[k])) && (j < |lines| ==> StartsFile(lines[j]))
    decreases |lines| - from
  {
    if from == |lines| || StartsFile(lines[from]) { j := from; } else { j := NextHeader(lines, from + 1); }
  }

  /** A file at the front of the lines is weak on its own. */
  lemma FirstFile(p: Patterns, lines: seq<string>, j: nat)
    requires IsFile(lines, 0, j)
    ensures IsWeakFile(p, lines, 0, j) <==> NamesTest(lines[0]) && Weakens(p, Preamble(lines[1..]), 0, 0)
  {
    PreambleIs(lines[1..], j - 1);
    assert lines[1..][..j - 1] == lines[1..j];
    NamesTestMeans(lines[0]);
    WeakensMeans(p, lines[1..j]);
  }

  lemma LaterFile(p: Patterns, lines: seq<string>, i: nat, j: nat)
    requires lines != []
    ensures IsWeakFile(p, lines[1..], i, j) <==> IsWeakFile(p, lines, i + 1, j + 1)
  {
    var rest := lines[1..];
    assert forall k {:trigger rest[k]} :: 0 <= k < |rest| ==> rest[k] == lines[k + 1];
    if j <= |rest| && i < j {
      assert rest[i + 1..j] == lines[i + 2..j + 1];
      assert forall k :: i + 1 < k < j + 1 ==> lines[k] == rest[k - 1];
    }
  }

  lemma {:induction false} WeakFileExists(p: Patterns, lines: seq<string>) returns (i: nat, j: nat)
    requires Weakened(p, lines)
    ensures IsWeakFile(p, lines, i, j)
    decreases |lines|
  {
    assert lines == [lines[0]] + lines[1..];
    WeakenedStep(p, lines[0], lines[1..]);
    LineKinds(lines[0]);
    if Weakened(p, lines[1..]) {
      var a, b := WeakFileExists(p, lines[1..]);
      LaterFile(p, lines, a, b);
      i, j := a + 1, b + 1;
    } else {
      i := 0;
      j := NextHeader(lines, 1);
      FirstFile(p, lines, j);
    }
  }

  lemma {:induction false} WeakFileIsSeen(p: Patterns, lines: seq<string>, i: nat, j: nat)
    requires IsWeakFile(p, lines, i, j)
    ensures Weakened(p, lines)
    decreases |lines|
  {
    assert lines == [lines[0]] + lines[1..];
    WeakenedStep(p, lines[0], lines[1..]);
    LineKinds(lines[0]);
    if i == 0 {
      FirstFile(p, lines, j);
    } else {
      LaterFile(p, lines, i - 1, j - 1);
      WeakFileIsSeen(p, lines[1..], i - 1, j - 1);
    }
  }

  /** A patch weakens the tests exactly when some file of it, named `tests/...` by its header, is deleted, has
      a disabling line added, or has more definitions removed than added. */
  lemma WeakenedMeans(p: Patterns, lines: seq<string>)
    ensures Weakened(p, lines) <==> exists i, j :: IsWeakFile(p, lines, i, j)
  {
    if Weakened(p, lines) {
      var i, j := WeakFileExists(p, lines);
    }
    if i: nat, j: nat :| IsWeakFile(p, lines, i, j) {
      WeakFileIsSeen(p, lines, i, j);
    }
  }

  /** In particular a patch in which no header names a file under `tests/` is never weak. */
  lemma OtherFilesAreNotWeak(p: Patterns, lines: seq<string>)
    requires forall k, u, w :: 0 <= k < |lines| && IsWord(u) ==> lines[k] != HeaderFor(u, w)
    ensures !Weakened(p, lines)
  {
    if Weakened(p, lines) {
      var i, j := WeakFileExists(p, lines);
      assert false;
    }
  }

  /** And a patch of one file under `tests/` is weak exactly on its own lines' grounds. */
  lemma OneTestFile(p: Patterns, u: string, w: string, body: seq<string>)
    requires IsWord(u) && forall k :: 0 <= k < |body| ==> !StartsFile(body[k])
    ensures Weakened(p, [HeaderFor(u, w)] + body) <==> Grounds(p, body)
  {
    var lines := [HeaderFor(u, w)] + body;
    HeaderNamesTest(u, w);
    assert lines[1..] == body && lines[1..|lines|] == body && body[0..] == body;
    assert IsFile(lines, 0, |lines|);
    if Grounds(p, body) {
      assert IsWeakFile(p, lines, 0, |lines|);
      WeakFileIsSeen(p, lines, 0, |lines|);
    }
    if Weakened(p, lines) {
      var i, j := WeakFileExists(p, lines);
      assert i == 0 && j == |lines|;
    }
  }
}
