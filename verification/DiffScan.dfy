/** Whether a unified diff weakens the tests: one pass with counters, against a per-file definition. */
module DiffScan {
  import opened Text

  const DIFF_HEADER := "diff --git "
  const DELETED := "deleted file mode"

  /** The two line patterns: a marker that disables a test, and a test or suite definition. */
  datatype Patterns = Patterns(disables: string -> bool, defines: string -> bool)

  // ----- lines -----

  predicate IsHeader(line: string) {
    StartsWith(line, DIFF_HEADER)
  }

  /** How many characters before the first white one. */
  function WordLength(s: string): (n: nat)
    ensures n <= |s|
  {
    if s == "" || IsWhite(s[0]) then 0 else 1 + WordLength(s[1..])
  }

  /** The header's second path, one word after one word, lies under `tests/`. */
  predicate NamesTest(line: string) {
    StartsWith(line, DIFF_HEADER + "a/") &&
    var rest := line[|DIFF_HEADER| + 2..];
    WordLength(rest) >= 1 && StartsWith(rest[WordLength(rest)..], " b/tests/")
  }

  predicate Deletes(line: string) {
    StartsWith(line, DELETED)
  }

  predicate IsFileMark(line: string) {
    StartsWith(line, "+++") || StartsWith(line, "---")
  }

  predicate IsAdded(line: string) {
    !IsFileMark(line) && StartsWith(line, "+")
  }

  predicate IsRemoved(line: string) {
    !IsFileMark(line) && StartsWith(line, "-")
  }

  // ----- the definition, file by file -----

  /** The lines up to the next header. */
  function Preamble(lines: seq<string>): seq<string> {
    if lines == [] || IsHeader(lines[0]) then [] else [lines[0]] + Preamble(lines[1..])
  }

  datatype File = File(header: string, body: seq<string>)

  /** Each header with the lines up to the next one. */
  function Files(lines: seq<string>): seq<File> {
    if lines == [] then []
    else if IsHeader(lines[0]) then [File(lines[0], Preamble(lines[1..]))] + Files(lines[1..])
    else Files(lines[1..])
  }

  function Added(p: Patterns, body: seq<string>): nat {
    if body == [] then 0 else (if IsAdded(body[0]) && p.defines(body[0]) then 1 else 0) + Added(p, body[1..])
  }

  function Removed(p: Patterns, body: seq<string>): nat {
    if body == [] then 0 else (if IsRemoved(body[0]) && p.defines(body[0]) then 1 else 0) + Removed(p, body[1..])
  }

  /** A line that settles the matter by itself: the file is deleted, or a test is disabled. */
  predicate Condemns(p: Patterns, line: string) {
    Deletes(line) || (IsAdded(line) && p.disables(line))
  }

  predicate Weakens(p: Patterns, body: seq<string>, added: nat, removed: nat) {
    (exists i :: 0 <= i < |body| && Condemns(p, body[i])) || removed + Removed(p, body) > added + Added(p, body)
  }

  /** Some file under `tests/` is deleted, has a test disabled, or loses more definitions than it gains. */
  predicate Weakened(p: Patterns, lines: seq<string>) {
    exists i :: 0 <= i < |Files(lines)| && NamesTest(Files(lines)[i].header) && Weakens(p, Files(lines)[i].body, 0, 0)
  }

  // ----- the pass -----

  /** What the answer still depends on, part of the way through: the current file with its counters and
      the rest of its lines, and the files after it. */
  predicate Pending(p: Patterns, isTest: bool, added: nat, removed: nat, rest: seq<string>) {
    (isTest && Weakens(p, Preamble(rest), added, removed)) || Weakened(p, rest)
  }

  lemma WeakensStep(p: Patterns, line: string, body: seq<string>, added: nat, removed: nat)
    ensures Weakens(p, [line] + body, added, removed) <==>
      || Condemns(p, line)
      || Weakens(p, body, added + (if IsAdded(line) && p.defines(line) then 1 else 0),
                 removed + (if IsRemoved(line) && p.defines(line) then 1 else 0))
  {
    var all := [line] + body;
    assert all[1..] == body;
    if i :| 0 <= i < |body| && Condemns(p, body[i]) { assert all[i + 1] == body[i]; }
    if i :| 0 <= i < |all| && Condemns(p, all[i]) { assert i > 0 ==> all[i] == body[i - 1]; }
    assert all[0] == line;
  }

  lemma WeakenedStep(p: Patterns, line: string, rest: seq<string>)
    ensures Weakened(p, [line] + rest) <==>
      (IsHeader(line) && NamesTest(line) && Weakens(p, Preamble(rest), 0, 0)) || Weakened(p, rest)
  {
    assert ([line] + rest)[1..] == rest;
    var all, fs := Files([line] + rest), Files(rest);
    if IsHeader(line) {
      assert all == [File(line, Preamble(rest))] + fs;
      if i :| 0 <= i < |fs| && NamesTest(fs[i].header) && Weakens(p, fs[i].body, 0, 0) { assert all[i + 1] == fs[i]; }
      if i :| 0 < i < |all| && NamesTest(all[i].header) && Weakens(p, all[i].body, 0, 0) { assert all[i] == fs[i - 1]; }
      assert all[0] == File(line, Preamble(rest));
    }
  }

  lemma PendingStep(p: Patterns, isTest: bool, added: nat, removed: nat, line: string, rest: seq<string>)
    ensures IsHeader(line) ==>
      (Pending(p, isTest, added, removed, [line] + rest) <==> (isTest && removed > added) || Pending(p, NamesTest(line), 0, 0, rest))
    ensures !IsHeader(line) && isTest ==>
      (Pending(p, isTest, added, removed, [line] + rest) <==>
         || Condemns(p, line)
         || Pending(p, isTest, added + (if IsAdded(line) && p.defines(line) then 1 else 0),
                    removed + (if IsRemoved(line) && p.defines(line) then 1 else 0), rest))
    ensures !IsHeader(line) && !isTest ==>
      (Pending(p, isTest, added, removed, [line] + rest) <==> Pending(p, isTest, added, removed, rest))
  {
    assert ([line] + rest)[1..] == rest;
    WeakenedStep(p, line, rest);
    WeakensStep(p, line, Preamble(rest), added, removed);
  }

  /** The one-pass scan with counters and early returns decides the per-file definition. */
  method DetectsTestWeakening(p: Patterns, patch: string) returns (weak: bool)
    ensures weak <==> Weakened(p, Split(patch, '\n'))
  {
    var lines := Split(patch, '\n');
    var isTest, added, removed := false, 0, 0;
    assert lines[0..] == lines;
    for i := 0 to |lines|
      invariant added >= 0 && removed >= 0
      invariant Weakened(p, lines) <==> Pending(p, isTest, added, removed, lines[i..])
    {
      var line := lines[i];
      assert lines[i..] == [line] + lines[i + 1..];
      PendingStep(p, isTest, added, removed, line, lines[i + 1..]);
      if IsHeader(line) {
        if isTest && removed > added {
          return true;
        }
        added, removed, isTest := 0, 0, NamesTest(line);
        continue;
      }
      if !isTest {
        continue;
      }
      if Deletes(line) {
        return true;
      }
      if IsFileMark(line) {
        continue;
      }
      if StartsWith(line, "+") {
        if p.disables(line) {
          return true;
        }
        if p.defines(line) { added := added + 1; }
      } else if StartsWith(line, "-") {
        if p.defines(line) { removed := removed + 1; }
      }
    }
    weak := isTest && removed > added;
  }

  // ----- concatenation -----

  lemma {:induction false} PreambleAt(a: seq<string>, b: seq<string>)
    requires b == [] || IsHeader(b[0])
    ensures Preamble(a + b) == Preamble(a)
    decreases |a|
  {
    if a == [] {
      assert a + b == b;
    } else {
      assert (a + b)[1..] == a[1..] + b;
      PreambleAt(a[1..], b);
    }
  }

  /** Lines that start a file of their own leave the files before them as they are. */
  lemma {:induction false} WeakenedAt(p: Patterns, a: seq<string>, b: seq<string>)
    requires b == [] || IsHeader(b[0])
    ensures Weakened(p, a + b) <==> Weakened(p, a) || Weakened(p, b)
    decreases |a|
  {
    if a == [] {
      assert a + b == b;
    } else {
      WeakenedAt(p, a[1..], b);
      PreambleAt(a[1..], b);
      WeakenedStep(p, a[0], a[1..] + b);
      WeakenedStep(p, a[0], a[1..]);
      assert a + b == [a[0]] + (a[1..] + b) && a == [a[0]] + a[1..];
    }
  }

  /** What follows the lines before the first header. */
  function AfterPreamble(lines: seq<string>): (rest: seq<string>)
    ensures rest == [] || IsHeader(rest[0])
    ensures lines == Preamble(lines) + rest
  {
    if lines == [] || IsHeader(lines[0]) then lines
    else
      assert lines == [lines[0]] + lines[1..];
      AfterPreamble(lines[1..])
  }

  lemma {:induction false} PreambleIsIgnored(p: Patterns, lines: seq<string>)
    ensures Weakened(p, lines) <==> Weakened(p, AfterPreamble(lines))
    decreases |lines|
  {
    if lines != [] && !IsHeader(lines[0]) {
      WeakenedStep(p, lines[0], lines[1..]);
      assert lines == [lines[0]] + lines[1..];
      PreambleIsIgnored(p, lines[1..]);
    }
  }

  /** For any two sequences of lines: those before the second's first header count towards the first's
      last file, and otherwise the answer is the disjunction. */
  lemma ConcatenationIsDisjunction(p: Patterns, a: seq<string>, b: seq<string>)
    ensures Weakened(p, a + b) <==> Weakened(p, a + Preamble(b)) || Weakened(p, b)
  {
    var rest := AfterPreamble(b);
    PreambleIsIgnored(p, b);
    WeakenedAt(p, a + Preamble(b), rest);
    assert a + b == (a + Preamble(b)) + rest;
  }

  /** A trailing empty line, which a final line break leaves behind, changes nothing. */
  lemma {:induction false} EmptyLineIsIgnored(p: Patterns, lines: seq<string>)
    ensures Weakened(p, lines + [""]) <==> Weakened(p, lines)
    decreases |lines|
  {
    if lines == [] {
      assert lines + [""] == [""] + [];
      WeakenedStep(p, "", []);
    } else {
      EmptyLineIsIgnored(p, lines[1..]);
      WeakenedStep(p, lines[0], lines[1..] + [""]);
      WeakenedStep(p, lines[0], lines[1..]);
      EmptyInBody(p, lines[1..]);
      assert lines + [""] == [lines[0]] + (lines[1..] + [""]) && lines == [lines[0]] + lines[1..];
    }
  }

  lemma {:induction false} EmptyInBody(p: Patterns, lines: seq<string>)
    ensures forall a: nat, r: nat :: Weakens(p, Preamble(lines + [""]), a, r) <==> Weakens(p, Preamble(lines), a, r)
    decreases |lines|
  {
    if lines == [] {
      assert (lines + [""])[1..] == [];
      forall a: nat, r: nat ensures Weakens(p, [""], a, r) <==> Weakens(p, [], a, r) {
        WeakensStep(p, "", [], a, r);
        assert [""] == [""] + [];
      }
    } else if !IsHeader(lines[0]) {
      EmptyInBody(p, lines[1..]);
      assert (lines + [""])[1..] == lines[1..] + [""];
      forall a: nat, r: nat ensures Weakens(p, Preamble(lines + [""]), a, r) <==> Weakens(p, Preamble(lines), a, r) {
        WeakensStep(p, lines[0], Preamble(lines[1..] + [""]), a, r);
        WeakensStep(p, lines[0], Preamble(lines[1..]), a, r);
      }
    }
  }

  /** Patches written one after the other, each ending its last line: weak if and only if one of them is. */
  lemma PatchesAreIndependent(p: Patterns, a: string, b: string)
    requires StartsWith(b, DIFF_HEADER)
    ensures Weakened(p, Split(a + ['\n'] + b, '\n')) <==>
      Weakened(p, Split(a + ['\n'], '\n')) || Weakened(p, Split(b, '\n'))
  {
    SplitAt(a, '\n', b);
    SplitAt(a, '\n', "");
    assert a + ['\n'] + "" == a + ['\n'];
    HeaderStaysWhole(b);
    WeakenedAt(p, Split(a, '\n'), Split(b, '\n'));
    EmptyLineIsIgnored(p, Split(a, '\n'));
  }

  lemma {:induction false} FirstPiece(head: string, tail: string)
    requires '\n' !in head
    ensures StartsWith(Split(head + tail, '\n')[0], head)
    decreases |head|
  {
    if head != "" {
      FirstPiece(head[1..], tail);
      assert head + tail == [head[0]] + (head[1..] + tail);
      SplitStep(head[0], head[1..] + tail, '\n');
      var piece := Split(head[1..] + tail, '\n')[0];
      assert ([head[0]] + piece)[..|head|] == [head[0]] + piece[..|head| - 1];
      assert head == [head[0]] + head[1..];
    }
  }

  lemma HeaderStaysWhole(b: string)
    requires StartsWith(b, DIFF_HEADER)
    ensures IsHeader(Split(b, '\n')[0])
  {
    var tail := b[|DIFF_HEADER|..];
    assert b == DIFF_HEADER + tail;
    FirstPiece(DIFF_HEADER, tail);
  }
}
