/**
 * The streaming redactor on a command's output: chunks arrive cut anywhere, lines are redacted
 * one by one, and a line over the cap is withheld without ever being buffered. In this module a
 * `char` stands for one UTF-16 unit, which is what the cap and the overlap are counted in.
 */
module LineRedactor {
  import opened Text

  // Written in parts: the verifier can look inside short literals.
  const WITHHELD := "[redacted: secret" + ("-shaped line " + "withheld]")
  const MAX_LINE := 0x10_0000
  const OVERLAP := 256

  /** A stateful line redactor: `redact` for a line kept, `observe` for a fragment discarded. */
  datatype Rules<!S(!new)> = Rules(redact: (S, string) -> (S, string), observe: (S, string) -> S)

  datatype Stream<S> = Stream(state: S, pending: string, dropping: bool, dropTail: string, output: string)

  function Last(s: string): (r: string)
    ensures |r| == if |s| <= OVERLAP then |s| else OVERLAP
  {
    if |s| <= OVERLAP then s else s[|s| - OVERLAP..]
  }

  // ----- the whole-text specification -----

  function EmitLine<S(!new)>(r: Rules<S>, s: S, line: string): (S, string) {
    if |line| > MAX_LINE then (r.observe(s, line), WITHHELD) else r.redact(s, line)
  }

  /** The state and text after a sequence of newline-terminated lines. */
  function EmitLines<S(!new)>(r: Rules<S>, s: S, lines: seq<string>): (S, string) {
    if lines == [] then (s, "")
    else
      var (s1, o1) := EmitLines(r, s, lines[..|lines| - 1]);
      var (s2, o2) := EmitLine(r, s1, lines[|lines| - 1]);
      (s2, o1 + o2 + "\n")
  }

  /** Every line emitted in order; a final line without newline is emitted when it is not empty. */
  function Redacted<S(!new)>(r: Rules<S>, s: S, text: string): (S, string) {
    var lines := Split(text, '\n');
    var n := |lines| - 1;
    var (s1, o1) := EmitLines(r, s, lines[..n]);
    if lines[n] == "" then (s1, o1)
    else
      var (s2, o2) := EmitLine(r, s1, lines[n]);
      (s2, o1 + o2)
  }

  // ----- the streaming machine -----

  function Observed<S(!new)>(r: Rules<S>, st: Stream<S>, chunk: string): Stream<S> {
    var scan := st.dropTail + chunk;
    st.(state := r.observe(st.state, scan), dropTail := Last(scan))
  }

  /** A piece of the current line that does not end it. */
  function Extend<S(!new)>(r: Rules<S>, st: Stream<S>, piece: string): Stream<S> {
    if st.dropping then Observed(r, st, piece)
    else if |st.pending| + |piece| > MAX_LINE then
      Observed(r, st.(dropping := true), st.pending + piece).(pending := "")
    else st.(pending := st.pending + piece)
  }

  /** The last piece of the current line, followed by its newline. */
  function EndLine<S(!new)>(r: Rules<S>, st: Stream<S>, piece: string): Stream<S> {
    if st.dropping then
      Observed(r, st, piece).(dropping := false, dropTail := "", output := st.output + WITHHELD + "\n")
    else if |st.pending| + |piece| > MAX_LINE then
      st.(state := r.observe(st.state, st.pending + piece), pending := "", output := st.output + WITHHELD + "\n")
    else
      var (s, out) := r.redact(st.state, st.pending + piece);
      st.(state := s, pending := "", output := st.output + out + "\n")
  }

  function IndexFrom(text: string, i: nat): (nl: int)
    requires i <= |text|
    ensures nl == -1 ==> '\n' !in text[i..]
    ensures nl != -1 ==> i <= nl < |text| && text[nl] == '\n' && '\n' !in text[i..nl]
    decreases |text| - i
  {
    if i == |text| then -1
    else if text[i] == '\n' then i
    else
      var nl := IndexFrom(text, i + 1);
      assert text[i..] == [text[i]] + text[i + 1..];
      assert nl != -1 ==> text[i..nl] == [text[i]] + text[i + 1..nl];
      nl
  }

  function Feed<S(!new)>(r: Rules<S>, st: Stream<S>, text: string): Stream<S>
    decreases |text|
  {
    if text == "" then st
    else
      var nl := IndexFrom(text, 0);
      if nl == -1 then Extend(r, st, text)
      else Feed(r, EndLine(r, st, text[..nl]), text[nl + 1..])
  }

  function FeedAll<S(!new)>(r: Rules<S>, st: Stream<S>, chunks: seq<string>): Stream<S>
    decreases |chunks|
  {
    if chunks == [] then st else FeedAll(r, Feed(r, st, chunks[0]), chunks[1..])
  }

  function Flush<S(!new)>(r: Rules<S>, st: Stream<S>): Stream<S> {
    if st.dropping then st.(output := st.output + WITHHELD, dropping := false)
    else if |st.pending| > 0 then
      var (s, out) := r.redact(st.state, st.pending);
      st.(state := s, output := st.output + out, pending := "")
    else st
  }

  function Fresh<S>(s: S): Stream<S> {
    Stream(s, "", false, "", "")
  }

  function Flatten(chunks: seq<string>): string {
    if chunks == [] then "" else chunks[0] + Flatten(chunks[1..])
  }

  /** The transform as the harness runs it. */
  class RedactingTransform<S(!new)> {
    const rules: Rules<S>
    var state: S
    var pending: string
    var dropping: bool
    var dropTail: string
    var output: string

    ghost function Contents(): Stream<S>
      reads this
    {
      Stream(state, pending, dropping, dropTail, output)
    }

    constructor (rules: Rules<S>, initial: S)
      ensures this.rules == rules && Contents() == Fresh(initial)
    {
      this.rules, state := rules, initial;
      pending, dropping, dropTail, output := "", false, "", "";
    }

    method ObserveDropped(chunk: string)
      modifies this
      ensures Contents() == Observed(rules, old(Contents()), chunk)
    {
      var scan := dropTail + chunk;
      state := rules.observe(state, scan);
      dropTail := Last(scan);
    }

    /** A piece of the current line that no newline follows yet. */
    method Hold(piece: string)
      modifies this
      ensures Contents() == Extend(rules, old(Contents()), piece)
    {
      if dropping {
        ObserveDropped(piece);
      } else if |pending| + |piece| > MAX_LINE {
        dropping := true;
        ObserveDropped(pending + piece);
        pending := "";
      } else {
        pending := pending + piece;
      }
    }

    /** The piece that completes the current line. */
    method Complete(piece: string)
      modifies this
      ensures Contents() == EndLine(rules, old(Contents()), piece)
    {
      if dropping {
        ObserveDropped(piece);
        output := output + WITHHELD + "\n";
        dropping := false;
        dropTail := "";
      } else if |pending| + |piece| > MAX_LINE {
        state := rules.observe(state, pending + piece);
        output := output + WITHHELD + "\n";
        pending := "";
      } else {
        var (s, out) := rules.redact(state, pending + piece);
        state, output, pending := s, output + out + "\n", "";
      }
    }

    method Consume(text: string)
      modifies this
      ensures Contents() == Feed(rules, old(Contents()), text)
    {
      var i := 0;
      assert text[0..] == text;
      while i < |text|
        invariant 0 <= i <= |text|
        invariant Feed(rules, Contents(), text[i..]) == Feed(rules, old(Contents()), text)
      {
        var nl := IndexFrom(text, i);
        ghost var before := Contents();
        FeedFrom(rules, before, text, i, nl);
        if nl == -1 {
          Hold(text[i..]);
          return;
        }
        Complete(text[i..nl]);
        assert Contents() == EndLine(rules, before, text[i..nl]);
        i := nl + 1;
      }
      assert text[i..] == "";
    }

    method Finish()
      modifies this
      ensures Contents() == Flush(rules, old(Contents()))
    {
      if dropping {
        output := output + WITHHELD;
        dropping := false;
      } else if |pending| > 0 {
        var (s, out) := rules.redact(state, pending);
        state, output, pending := s, output + out, "";
      }
    }
  }

  /** What `Feed` does with the rest of a text from position `i`. */
  lemma FeedFrom<S(!new)>(r: Rules<S>, st: Stream<S>, text: string, i: nat, nl: int)
    requires i < |text| && nl == IndexFrom(text, i)
    ensures nl == -1 ==> Feed(r, st, text[i..]) == Extend(r, st, text[i..])
    ensures nl != -1 ==> Feed(r, st, text[i..]) == Feed(r, EndLine(r, st, text[i..nl]), text[nl + 1..])
  {
    IndexOfSuffix(text, i, i);
    if nl != -1 {
      assert text[i..][..nl - i] == text[i..nl];
      assert text[i..][nl - i + 1..] == text[nl + 1..];
    }
  }

  lemma {:induction false} IndexOfSuffix(text: string, i: nat, k: nat)
    requires i <= k <= |text|
    ensures IndexFrom(text[i..], k - i) == if IndexFrom(text, k) == -1 then -1 else IndexFrom(text, k) - i
    decreases |text| - k
  {
    if k < |text| && text[k] != '\n' {
      IndexOfSuffix(text, i, k + 1);
    }
  }

  // ----- the stream agrees with the specification -----

  /** What the overlap buys for one over-long line: re-observing the kept tail together with the next
      piece is as good as having observed everything at once. */
  ghost predicate Faithful<S(!new)>(r: Rules<S>, line: string) {
    forall s, i, j {:trigger r.observe(r.observe(s, line[..i]), Last(line[..i]) + line[i..j])} ::
      MAX_LINE < i <= j <= |line| ==>
        r.observe(r.observe(s, line[..i]), Last(line[..i]) + line[i..j]) == r.observe(s, line[..j])
  }

  ghost predicate AllFaithful<S(!new)>(r: Rules<S>, lines: seq<string>) {
    forall i :: 0 <= i < |lines| ==> Faithful(r, lines[i])
  }

  /** The stream's fields after `seen`: the finished lines are out, and the current one is either
      buffered whole or, being over the cap, remembered by its observed state and its tail. */
  ghost predicate Agrees<S(!new)>(r: Rules<S>, s0: S, st: Stream<S>, lines: seq<string>)
    requires |lines| >= 1
  {
    var n := |lines| - 1;
    var (s, out) := EmitLines(r, s0, lines[..n]);
    && st.output == out
    && (if st.dropping then
          && |lines[n]| > MAX_LINE && st.pending == ""
          && st.dropTail == Last(lines[n]) && st.state == r.observe(s, lines[n])
        else
          && |lines[n]| <= MAX_LINE && st.pending == lines[n]
          && st.dropTail == "" && st.state == s)
  }

  lemma LastOfLast(a: string, b: string)
    ensures Last(Last(a) + b) == Last(a + b)
  { }

  lemma FaithfulStep<S(!new)>(r: Rules<S>, s: S, line: string, i: nat)
    requires Faithful(r, line) && MAX_LINE < i <= |line|
    ensures r.observe(r.observe(s, line[..i]), Last(line[..i]) + line[i..]) == r.observe(s, line)
  {
    assert line[i..|line|] == line[i..];
    assert line[..|line|] == line;
  }

  lemma ExtendAgrees<S(!new)>(r: Rules<S>, s0: S, st: Stream<S>, lines: seq<string>, piece: string)
    requires |lines| >= 1 && Agrees(r, s0, st, lines)
    requires Faithful(r, lines[|lines| - 1] + piece)
    ensures Agrees(r, s0, Extend(r, st, piece), lines[..|lines| - 1] + [lines[|lines| - 1] + piece])
  {
    var n := |lines| - 1;
    var whole := lines[n] + piece;
    assert (lines[..n] + [whole])[..n] == lines[..n];
    var (s, out) := EmitLines(r, s0, lines[..n]);
    if st.dropping {
      FaithfulStep(r, s, whole, |lines[n]|);
      assert whole[..|lines[n]|] == lines[n] && whole[|lines[n]|..] == piece;
      LastOfLast(lines[n], piece);
    } else {
      assert "" + whole == whole;
    }
  }

  lemma EndLineAgrees<S(!new)>(r: Rules<S>, s0: S, st: Stream<S>, lines: seq<string>, piece: string)
    requires |lines| >= 1 && Agrees(r, s0, st, lines)
    requires Faithful(r, lines[|lines| - 1] + piece)
    ensures Agrees(r, s0, EndLine(r, st, piece), lines[..|lines| - 1] + [lines[|lines| - 1] + piece, ""])
  {
    var n := |lines| - 1;
    var whole := lines[n] + piece;
    var done := lines[..n] + [whole];
    assert (lines[..n] + [whole, ""])[..n + 1] == done;
    assert done[..n] == lines[..n];
    var (s, out) := EmitLines(r, s0, lines[..n]);
    if st.dropping {
      FaithfulStep(r, s, whole, |lines[n]|);
      assert whole[..|lines[n]|] == lines[n] && whole[|lines[n]|..] == piece;
    }
  }

  /** The lines of `a + b` from the lines of `a` and of `b`. */
  function Glue(p: seq<string>, q: seq<string>): (r: seq<string>)
    requires |p| >= 1 && |q| >= 1
    ensures |r| == |p| + |q| - 1
  {
    p[..|p| - 1] + [p[|p| - 1] + q[0]] + q[1..]
  }

  lemma {:induction false} SplitGlue(a: string, b: string, c: char)
    ensures Split(a + b, c) == Glue(Split(a, c), Split(b, c))
  {
    if a == "" {
      assert a + b == b;
      GlueUnits([""], Split(b, c));
    } else {
      var x, rest := a[0], a[1..];
      SplitGlue(rest, b, c);
      assert a + b == [x] + (rest + b) && a == [x] + rest;
      SplitGlueStep(x, rest, b, c);
    }
  }

  lemma SplitGlueStep(x: char, rest: string, b: string, c: char)
    requires Split(rest + b, c) == Glue(Split(rest, c), Split(b, c))
    ensures Split([x] + (rest + b), c) == Glue(Split([x] + rest, c), Split(b, c))
  {
    SplitStep(x, rest + b, c);
    SplitStep(x, rest, c);
    GlueStep(x, c, Split(rest, c), Split(b, c));
  }

  lemma GlueUnits(p: seq<string>, q: seq<string>)
    requires |p| >= 1 && |q| >= 1
    ensures p == [""] ==> Glue(p, q) == q
    ensures q == [""] ==> Glue(p, q) == p
  {
    assert "" + q[0] == q[0] && [q[0]] + q[1..] == q;
    assert p[|p| - 1] + "" == p[|p| - 1] && p[..|p| - 1] + [p[|p| - 1]] == p;
  }

  lemma GlueStep(x: char, c: char, p: seq<string>, q: seq<string>)
    requires |p| >= 1 && |q| >= 1
    ensures Glue([""] + p, q) == [""] + Glue(p, q)
    ensures Glue(Prepend(x, p), q) == Prepend(x, Glue(p, q))
  {
    assert ([""] + p)[..|p|] == [""] + p[..|p| - 1];
    if |p| == 1 {
      assert Prepend(x, p) == [[x] + p[0]];
      assert [x] + p[0] + q[0] == [x] + (p[0] + q[0]);
    } else {
      var front := Prepend(x, p);
      assert front[..|p| - 1] == Prepend(x, p[..|p| - 1]);
      assert Glue(p, q)[1..] == p[..|p| - 1][1..] + [p[|p| - 1] + q[0]] + q[1..];
    }
  }

  lemma {:induction false} FeedAgrees<S(!new)>(r: Rules<S>, s0: S, st: Stream<S>, lines: seq<string>, text: string)
    requires |lines| >= 1 && Agrees(r, s0, st, lines)
    requires AllFaithful(r, Glue(lines, Split(text, '\n')))
    ensures Agrees(r, s0, Feed(r, st, text), Glue(lines, Split(text, '\n')))
    decreases |text|
  {
    var n := |lines| - 1;
    if text == "" {
      GlueUnits(lines, [""]);
    } else {
      var nl := IndexFrom(text, 0);
      if nl == -1 {
        assert text[0..] == text;
        SplitWithout(text, '\n');
        assert Glue(lines, [text])[n] == lines[n] + text;
        ExtendAgrees(r, s0, st, lines, text);
        assert Glue(lines, [text]) == lines[..n] + [lines[n] + text];
      } else {
        var a, b := text[..nl], text[nl + 1..];
        assert text[0..nl] == a;
        assert text == a + "\n" + b;
        SplitAt(a, '\n', b);
        SplitWithout(a, '\n');
        assert Glue(lines, [a] + Split(b, '\n'))[n] == lines[n] + a;
        EndLineAgrees(r, s0, st, lines, a);
        var mid := lines[..n] + [lines[n] + a, ""];
        GlueAfterLine(lines, a, Split(b, '\n'));
        FeedAgrees(r, s0, EndLine(r, st, a), mid, b);
      }
    }
  }

  lemma GlueAfterLine(lines: seq<string>, a: string, q: seq<string>)
    requires |lines| >= 1 && |q| >= 1
    ensures Glue(lines[..|lines| - 1] + [lines[|lines| - 1] + a, ""], q) == Glue(lines, [a] + q)
  {
    var n := |lines| - 1;
    var mid := lines[..n] + [lines[n] + a, ""];
    assert mid[..n + 1] == lines[..n] + [lines[n] + a];
    assert "" + q[0] == q[0];
    assert [q[0]] + q[1..] == q;
    assert ([a] + q)[1..] == q;
  }

  lemma FaithfulPrefix<S(!new)>(r: Rules<S>, line: string, k: nat)
    requires Faithful(r, line) && k <= |line|
    ensures Faithful(r, line[..k])
  {
    var head := line[..k];
    forall s, i, j | MAX_LINE < i <= j <= |head|
      ensures r.observe(r.observe(s, head[..i]), Last(head[..i]) + head[i..j]) == r.observe(s, head[..j])
    {
      assert head[..i] == line[..i] && head[i..j] == line[i..j] && head[..j] == line[..j];
    }
  }

  lemma FaithfulFirstPart<S(!new)>(r: Rules<S>, p: seq<string>, q: seq<string>)
    requires |p| >= 1 && |q| >= 1 && AllFaithful(r, Glue(p, q))
    ensures AllFaithful(r, p)
  {
    var n := |p| - 1;
    forall i | 0 <= i < |p| ensures Faithful(r, p[i]) {
      assert Faithful(r, Glue(p, q)[i]);
      if i == n {
        FaithfulPrefix(r, p[n] + q[0], |p[n]|);
        assert (p[n] + q[0])[..|p[n]|] == p[n];
      }
    }
  }

  lemma {:induction false} FeedAllAgrees<S(!new)>(r: Rules<S>, s0: S, st: Stream<S>, seen: string, chunks: seq<string>)
    requires Agrees(r, s0, st, Split(seen, '\n'))
    requires AllFaithful(r, Split(seen + Flatten(chunks), '\n'))
    ensures Agrees(r, s0, FeedAll(r, st, chunks), Split(seen + Flatten(chunks), '\n'))
    decreases |chunks|
  {
    if chunks == [] {
      assert seen + "" == seen;
    } else {
      var text, rest := chunks[0], chunks[1..];
      Assoc(seen, text, Flatten(rest));
      SplitGlue(seen + text, Flatten(rest), '\n');
      FaithfulFirstPart(r, Split(seen + text, '\n'), Split(Flatten(rest), '\n'));
      SplitGlue(seen, text, '\n');
      FeedAgrees(r, s0, st, Split(seen, '\n'), text);
      FeedAllAgrees(r, s0, Feed(r, st, text), seen + text, rest);
    }
  }

  function Streamed<S(!new)>(r: Rules<S>, s: S, chunks: seq<string>): (S, string) {
    var end := Flush(r, FeedAll(r, Fresh(s), chunks));
    (end.state, end.output)
  }

  /** However the text is cut into chunks, the stream emits what the line-by-line specification says. */
  lemma StreamMatchesText<S(!new)>(r: Rules<S>, s: S, chunks: seq<string>)
    requires AllFaithful(r, Split(Flatten(chunks), '\n'))
    ensures Streamed(r, s, chunks) == Redacted(r, s, Flatten(chunks))
  {
    var text := Flatten(chunks);
    assert "" + text == text;
    FeedAllAgrees(r, s, Fresh(s), "", chunks);
    FlushAgrees(r, s, FeedAll(r, Fresh(s), chunks), text);
  }

  lemma FlushAgrees<S(!new)>(r: Rules<S>, s: S, st: Stream<S>, text: string)
    requires Agrees(r, s, st, Split(text, '\n'))
    ensures Redacted(r, s, text) == (Flush(r, st).state, Flush(r, st).output)
  { }

  ghost predicate ChunkProof<S(!new)>(r: Rules<S>) {
    forall s, chunks :: Streamed(r, s, chunks) == Redacted(r, s, Flatten(chunks))
  }

  /** The overlap property on over-long lines is exactly what makes a redactor immune to chunking. */
  lemma ChunkProofIffFaithful<S(!new)>(r: Rules<S>)
    ensures ChunkProof(r) <==> forall line :: '\n' !in line ==> Faithful(r, line)
  {
    if forall line :: '\n' !in line ==> Faithful(r, line) {
      forall s, chunks ensures Streamed(r, s, chunks) == Redacted(r, s, Flatten(chunks)) {
        PiecesHoldNoSeparator(Flatten(chunks), '\n');
        StreamMatchesText(r, s, chunks);
      }
    }
    if ChunkProof(r) {
      forall line | '\n' !in line ensures Faithful(r, line) {
        forall s, i, j | MAX_LINE < i <= j <= |line|
          ensures r.observe(r.observe(s, line[..i]), Last(line[..i]) + line[i..j]) == r.observe(s, line[..j])
        {
          assert line[..i] + line[i..j] == line[..j];
          TwoChunks(r, s, line[..i], line[i..j]);
        }
      }
    }
  }

  /** A redactor without state. */
  function Stateless(redactLine: string -> string): Rules<()> {
    Rules((s: (), line: string) => ((), redactLine(line)), (s: (), fragment: string) => ())
  }

  /** When each line is redacted by itself, two ways of cutting one text always give the same log. */
  lemma StatelessIsChunkProof(redactLine: string -> string, a: seq<string>, b: seq<string>)
    requires Flatten(a) == Flatten(b)
    ensures Streamed(Stateless(redactLine), (), a) == Streamed(Stateless(redactLine), (), b)
    ensures Streamed(Stateless(redactLine), (), a) == Redacted(Stateless(redactLine), (), Flatten(a))
  {
    StreamMatchesText(Stateless(redactLine), (), a);
    StreamMatchesText(Stateless(redactLine), (), b);
  }

  /** An over-long line cut in two, then ended: the stream observes the tail and the second piece. */
  lemma TwoChunks<S(!new)>(r: Rules<S>, s: S, x: string, y: string)
    requires |x| > MAX_LINE && '\n' !in x && '\n' !in y
    requires Streamed(r, s, [x, y + "\n"]) == Redacted(r, s, Flatten([x, y + "\n"]))
    ensures r.observe(r.observe(s, x), Last(x) + y) == r.observe(s, x + y)
  {
    var line := x + y;
    var second := y + "\n";
    assert Flatten([x, second]) == line + "\n" by {
      assert [x, second][1..] == [second] && [second][1..] == [];
      assert second + "" == second;
      assert Flatten([second]) == second;
      assert x + second == line + "\n";
    }
    SplitAt(line, '\n', "");
    SplitWithout(line, '\n');
    assert line + "\n" + "" == line + "\n";
    assert Redacted(r, s, line + "\n").0 == r.observe(s, line) by {
      assert [line, ""][..1] == [line];
      assert [line][..0] == [];
      assert EmitLines(r, s, [line]).0 == EmitLine(r, s, line).0;
    }
    var st1 := Feed(r, Fresh(s), x);
    assert st1 == Extend(r, Fresh(s), x);
    assert st1.state == r.observe(s, x) && st1.dropTail == Last(x) by { assert "" + x == x; }
    assert second[..|y|] == y && second[|y| + 1..] == "";
    EndOfSecond(y);
    assert Feed(r, st1, second) == EndLine(r, st1, y);
    assert [x, second][1..] == [second] && [second][1..] == [];
    assert FeedAll(r, Fresh(s), [x, second]) == FeedAll(r, st1, [second]) == Feed(r, st1, second);
  }

  lemma EndOfSecond(y: string)
    requires '\n' !in y
    ensures IndexFrom(y + "\n", 0) == |y|
  {
    var text := y + "\n";
    assert text[0..][|y|] == '\n';
    assert forall k :: 0 <= k < |y| ==> text[k] == y[k];
  }

  // ----- bounds and coverage -----

  ghost predicate Bounded<S>(st: Stream<S>) {
    |st.pending| <= MAX_LINE && |st.dropTail| <= OVERLAP
  }

  lemma {:induction false} FeedBounded<S(!new)>(r: Rules<S>, st: Stream<S>, text: string)
    requires Bounded(st)
    ensures Bounded(Feed(r, st, text))
    decreases |text|
  {
    if text != "" {
      var nl := IndexFrom(text, 0);
      if nl != -1 {
        FeedBounded(r, EndLine(r, st, text[..nl]), text[nl + 1..]);
      }
    }
  }

  /** Whatever the redactor and the input, the buffers never grow past the cap and the overlap. */
  lemma {:induction false} BuffersStayBounded<S(!new)>(r: Rules<S>, st: Stream<S>, chunks: seq<string>)
    requires Bounded(st)
    ensures Bounded(FeedAll(r, st, chunks))
    decreases |chunks|
  {
    if chunks != [] {
      FeedBounded(r, st, chunks[0]);
      BuffersStayBounded(r, Feed(r, st, chunks[0]), chunks[1..]);
    }
  }

  /** What is shown to the redactor while an over-long line arrives in `pieces` after `done`. */
  function Fragments(done: string, pieces: seq<string>): seq<string>
    decreases |pieces|
  {
    if pieces == [] then [] else [Last(done) + pieces[0]] + Fragments(done + pieces[0], pieces[1..])
  }

  function ObserveAll<S(!new)>(r: Rules<S>, s: S, fragments: seq<string>): S {
    if fragments == [] then s else ObserveAll(r, r.observe(s, fragments[0]), fragments[1..])
  }

  lemma {:induction false} DroppedLineObservesFragments<S(!new)>(r: Rules<S>, st: Stream<S>, done: string, pieces: seq<string>)
    requires st.dropping && st.dropTail == Last(done)
    requires forall i :: 0 <= i < |pieces| ==> pieces[i] != "" && '\n' !in pieces[i]
    ensures FeedAll(r, st, pieces).state == ObserveAll(r, st.state, Fragments(done, pieces))
    decreases |pieces|
  {
    if pieces != [] {
      var piece, rest := pieces[0], pieces[1..];
      LastOfLast(done, piece);
      var fragments := Fragments(done, pieces);
      assert fragments[0] == Last(done) + piece;
      assert fragments[1..] == Fragments(done + piece, rest);
      DroppedLineObservesFragments(r, Extend(r, st, piece), done + piece, rest);
    }
  }

  predicate OccursAt(fragment: string, sub: string, o: int) {
    0 <= o && o + |sub| <= |fragment| && fragment[o..o + |sub|] == sub
  }

  ghost predicate Within(fragment: string, sub: string) {
    exists o :: OccursAt(fragment, sub, o)
  }

  /** Every stretch of at most 257 characters of a discarded line is seen whole in one fragment. */
  lemma {:induction false} FragmentsCover(done: string, pieces: seq<string>, a: nat, b: nat)
    requires a < b <= |done + Flatten(pieces)| && b - a <= OVERLAP + 1 && |done| < b
    ensures exists k :: 0 <= k < |Fragments(done, pieces)| &&
              Within(Fragments(done, pieces)[k], (done + Flatten(pieces))[a..b])
    decreases |pieces|
  {
    var whole := done + Flatten(pieces);
    assert pieces != [];
    var piece, rest := pieces[0], pieces[1..];
    Assoc(done, piece, Flatten(rest));
    if b <= |done + piece| {
      var fragment := Last(done) + piece;
      var o := a - (|done| - |Last(done)|);
      assert fragment == whole[|done| - |Last(done)|..|done + piece|];
      assert OccursAt(fragment, whole[a..b], o);
      assert Within(Fragments(done, pieces)[0], whole[a..b]);
    } else {
      FragmentsCover(done + piece, rest, a, b);
      var k :| 0 <= k < |Fragments(done + piece, rest)| && Within(Fragments(done + piece, rest)[k], whole[a..b]);
      assert Fragments(done, pieces)[k + 1] == Fragments(done + piece, rest)[k];
    }
  }
}
