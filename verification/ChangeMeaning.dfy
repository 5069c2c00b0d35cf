/** What canonical change texts keep: every character that is not white, in order, and the shape of the gaps between them. */
module ChangeMeaning {
  import opened Text
  import opened RefuteBinding

  // ----- one character at a time -----

  /** A change's text cleaned line by line, before it is trimmed. */
  function Cleaned(h: string): string {
    Join(CleanLines(Split(h, '\n')), "\n")
  }

  lemma {:induction false} StripEndCons(p: char -> bool, c: char, u: string)
    ensures StripEnd(p, [c] + u) == if StripEnd(p, u) != "" || !p(c) then [c] + StripEnd(p, u) else ""
    decreases |u|
  {
    var s := [c] + u;
    if u == "" {
      assert s == [c] && s[..0] == "";
    } else {
      assert s[|s| - 1] == u[|u| - 1] && s[..|s| - 1] == [c] + u[..|u| - 1];
      if p(u[|u| - 1]) { StripEndCons(p, c, u[..|u| - 1]); }
    }
  }

  lemma JoinFirst(x: string, a: string, rest: seq<string>)
    ensures Join([x + a] + rest, "\n") == x + Join([a] + rest, "\n")
  {
    assert ([x + a] + rest)[1..] == rest && ([a] + rest)[1..] == rest;
  }

  lemma SolidFirst(c: char, line: string)
    requires !IsBlankChar(c)
    ensures CleanLine([c] + line) == [c] + CleanLine(line)
  {
    assert ([c] + line)[1..] == line;
    StripEndCons(IsBlankChar, c, Collapse(line));
  }

  lemma BlankFirst(c: char, line: string)
    requires IsBlankChar(c)
    ensures CleanLine([c] + line) == if line == "" || IsBlankChar(line[0]) then CleanLine(line) else " " + CleanLine(line)
  {
    var s := [c] + line;
    assert s[1..] == line;
    if line == "" {
      assert Collapse(s) == " " + "" == " ";
      assert " "[..0] == "";
    } else if IsBlankChar(line[0]) {
      assert s[1] == line[0];
    } else {
      assert s[1] == line[0];
      SolidFirst(line[0], line[1..]);
      assert line == [line[0]] + line[1..];
      StripEndCons(IsBlankChar, ' ', Collapse(line));
    }
  }

  lemma FirstLine(t: string)
    ensures t == "" || t[0] == '\n' ==> Split(t, '\n')[0] == ""
    ensures t != "" && t[0] != '\n' ==> Split(t, '\n')[0] != "" && Split(t, '\n')[0][0] == t[0]
  {
  }

  lemma CleanedLines(lines: seq<string>)
    requires lines != []
    ensures CleanLines(lines) == [CleanLine(lines[0])] + CleanLines(lines[1..])
  {
  }

  lemma CleanedPrepend(c: char, lines: seq<string>, x: string)
    requires lines != [] && CleanLine([c] + lines[0]) == x + CleanLine(lines[0])
    ensures Join(CleanLines(Prepend(c, lines)), "\n") == x + Join(CleanLines(lines), "\n")
  {
    CleanedLines(lines);
    CleanedLines(Prepend(c, lines));
    JoinFirst(x, CleanLine(lines[0]), CleanLines(lines[1..]));
  }

  /** A character that is neither a space nor a tab stays. */
  lemma CleanedSolid(c: char, t: string)
    requires !IsBlankChar(c)
    ensures Cleaned([c] + t) == [c] + Cleaned(t)
  {
    SplitStep(c, t, '\n');
    if c == '\n' {
      CleanedLines([""] + Split(t, '\n'));
      assert ([""] + Split(t, '\n'))[1..] == Split(t, '\n');
      var rest := CleanLines(Split(t, '\n'));
      assert ([""] + rest)[1..] == rest;
      assert "" + "\n" + Join(rest, "\n") == "\n" + Join(rest, "\n");
    } else {
      SolidFirst(c, Split(t, '\n')[0]);
      CleanedPrepend(c, Split(t, '\n'), [c]);
    }
  }

  /** A space or tab stays, as a space, only in front of a character that is no space, tab or line break. */
  lemma CleanedBlank(c: char, t: string)
    requires IsBlankChar(c)
    ensures Cleaned([c] + t) == if t == "" || IsBlankChar(t[0]) || t[0] == '\n' then Cleaned(t) else " " + Cleaned(t)
  {
    SplitStep(c, t, '\n');
    var line := Split(t, '\n')[0];
    BlankFirst(c, line);
    FirstLine(t);
    var x := if t == "" || IsBlankChar(t[0]) || t[0] == '\n' then "" else " ";
    assert "" + CleanLine(line) == CleanLine(line) && "" + Cleaned(t) == Cleaned(t);
    CleanedPrepend(c, Split(t, '\n'), x);
  }

  /** What is known of a cleaning, character by character. */
  ghost predicate CleansByChar(f: string -> string) {
    && f("") == ""
    && (forall c, t {:trigger f([c] + t)} :: f([c] + t) == Step(c, t) + f(t))
  }

  /** What a character becomes in front of `t`. */
  function Step(c: char, t: string): string {
    if !IsBlankChar(c) then [c]
    else if t == "" || IsBlankChar(t[0]) || t[0] == '\n' then ""
    else " "
  }

  lemma CleanedByChar(f: string -> string)
    requires forall h :: f(h) == Cleaned(h)
    ensures CleansByChar(f)
  {
    assert CleanLines([""]) == [""];
    forall c, t ensures f([c] + t) == Step(c, t) + f(t) {
      assert "" + Cleaned(t) == Cleaned(t);
      if IsBlankChar(c) { CleanedBlank(c, t); } else { CleanedSolid(c, t); }
    }
  }

  // ----- what is kept -----

  /** The characters that are not white, in order. */
  function Solid(s: string): string {
    if s == "" then "" else if IsWhite(s[0]) then Solid(s[1..]) else [s[0]] + Solid(s[1..])
  }

  lemma SolidCons(c: char, s: string)
    ensures Solid([c] + s) == if IsWhite(c) then Solid(s) else [c] + Solid(s)
  {
    assert ([c] + s)[1..] == s;
  }

  lemma {:induction false} SolidConcat(a: string, b: string)
    ensures Solid(a + b) == Solid(a) + Solid(b)
    decreases |a|
  {
    if a == "" {
      assert a + b == b;
    } else {
      SolidConcat(a[1..], b);
      assert (a + b)[1..] == a[1..] + b;
    }
  }

  lemma {:induction false} CleaningKeepsSolid(f: string -> string, h: string)
    requires CleansByChar(f)
    ensures Solid(f(h)) == Solid(h)
    decreases |h|
  {
    if h != "" {
      var c, t := h[0], h[1..];
      assert h == [c] + t;
      CleaningKeepsSolid(f, t);
      SolidCons(c, t);
      StepKeepsSolid(c, t, f(t));
    }
  }

  lemma StepKeepsSolid(c: char, t: string, out: string)
    ensures Solid(Step(c, t) + out) == if IsWhite(c) then Solid(out) else [c] + Solid(out)
  {
    SolidCons(c, out);
    SolidCons(' ', out);
    assert "" + out == out;
  }

  lemma {:induction false} LineFeedsKeepSolid(s: string)
    ensures Solid(LineFeeds(s)) == Solid(s)
    decreases |s|
  {
    if s != "" {
      var t := LineFeeds(s[1..]);
      LineFeedsKeepSolid(s[1..]);
      SolidCons('\n', t);
      SolidCons(s[0], t);
    }
  }

  lemma {:induction false} StripEndKeepsSolid(s: string)
    ensures Solid(StripEnd(IsWhite, s)) == Solid(s)
    decreases |s|
  {
    if s != "" && IsWhite(s[|s| - 1]) {
      var front, last := s[..|s| - 1], [s[|s| - 1]];
      StripEndKeepsSolid(front);
      assert s == front + last && last[1..] == "";
      SolidConcat(front, last);
      assert Solid(last) == "";
    }
  }

  lemma {:induction false} StripStartKeepsSolid(s: string)
    ensures Solid(StripStart(IsWhite, s)) == Solid(s)
    decreases |s|
  {
    if s != "" && IsWhite(s[0]) { StripStartKeepsSolid(s[1..]); }
  }

  /** Normalising a change keeps every character that is not white, in order, and adds none. */
  lemma SolidTextIsKept(s: string)
    ensures Solid(NormalizeChangeText(s)) == Solid(s)
  {
    LineFeedsKeepSolid(s);
    var f := (h: string) => Cleaned(h);
    CleanedByChar(f);
    CleaningKeepsSolid(f, LineFeeds(s));
    StripStartKeepsSolid(Cleaned(LineFeeds(s)));
    StripEndKeepsSolid(StripStart(IsWhite, Cleaned(LineFeeds(s))));
  }

  // ----- the gaps -----

  function Breaks(n: nat): (r: string)
    ensures |r| == n
  {
    seq(n, _ => '\n')
  }

  /** How many line ends a gap has: line feeds, and carriage returns that no line feed follows. */
  function LineEnds(g: string, from: nat): set<nat> {
    set i: nat | from <= i < |g| && EndsLine(g, i)
  }

  predicate EndsLine(g: string, i: nat)
    requires i < |g|
  {
    g[i] == '\n' || (g[i] == '\r' && (i + 1 < |g| ==> g[i + 1] != '\n'))
  }

  predicate IsGap(g: string) {
    g != "" && forall i :: 0 <= i < |g| ==> g[i] in {' ', '\t', '\n', '\r'}
  }

  /** What a gap becomes: its line ends, and one space if it goes on after the last of them. */
  function GapText(g: string): string
    requires IsGap(g)
  {
    Breaks(|LineEnds(g, 0)|) + if IsBlankChar(g[|g| - 1]) then " " else ""
  }

  predicate IsPlainGap(h: string) {
    forall i :: 0 <= i < |h| ==> IsBlankChar(h[i]) || h[i] == '\n'
  }

  function CountBreaks(h: string): nat {
    if h == "" then 0 else (if h[0] == '\n' then 1 else 0) + CountBreaks(h[1..])
  }

  function Tail(h: string): string {
    if h != "" && IsBlankChar(h[|h| - 1]) then " " else ""
  }

  lemma {:induction false} CleanedGap(f: string -> string, h: string, y: string)
    requires CleansByChar(f) && IsPlainGap(h) && y != "" && !IsWhite(y[0])
    ensures f(h + y) == Breaks(CountBreaks(h)) + Tail(h) + f(y)
    decreases |h|
  {
    if h == "" {
      assert h + y == y && Breaks(0) + "" + f(y) == f(y);
    } else {
      var c, t := h[0], h[1..];
      assert h == [c] + t && h + y == [c] + (t + y);
      CleanedGap(f, t, y);
      GapStep(c, t, y, f(y));
    }
  }

  lemma CountCons(c: char, t: string)
    ensures CountBreaks([c] + t) == (if c == '\n' then 1 else 0) + CountBreaks(t)
  {
    assert ([c] + t)[1..] == t;
  }

  lemma TailCons(c: char, t: string)
    ensures Tail([c] + t) == if t != "" then Tail(t) else if IsBlankChar(c) then " " else ""
  {
  }

  lemma OneMoreBreak(n: nat, tail: string, out: string)
    ensures "\n" + (Breaks(n) + tail + out) == Breaks(n + 1) + tail + out
  {
    assert Breaks(n + 1) == "\n" + Breaks(n);
  }

  lemma NoBreak(out: string)
    ensures " " + (Breaks(0) + "" + out) == Breaks(0) + " " + out
  {
  }

  lemma StepOfGap(c: char, t: string, y: string)
    requires IsPlainGap([c] + t) && y != "" && !IsWhite(y[0])
    ensures Step(c, t + y) == if c == '\n' then "\n" else if t == "" then " " else ""
  {
    assert ([c] + t)[0] == c;
    assert t != "" ==> ([c] + t)[1] == t[0] && (t + y)[0] == t[0];
    assert t == "" ==> t + y == y;
  }

  lemma GapStep(c: char, t: string, y: string, out: string)
    requires IsPlainGap([c] + t) && y != "" && !IsWhite(y[0])
    ensures Step(c, t + y) + (Breaks(CountBreaks(t)) + Tail(t) + out) == Breaks(CountBreaks([c] + t)) + Tail([c] + t) + out
  {
    CountCons(c, t);
    TailCons(c, t);
    StepOfGap(c, t, y);
    assert ([c] + t)[0] == c;
    var n, tail := CountBreaks(t), Tail(t);
    if c == '\n' {
      OneMoreBreak(n, tail, out);
    } else if t == "" {
      NoBreak(out);
    } else {
      Nothing(Breaks(n) + tail + out);
    }
  }

  lemma Nothing(s: string)
    ensures "" + s == s
  {
  }

  predicate EndsSolid(x: string) {
    x == "" || !IsWhite(x[|x| - 1])
  }

  lemma {:induction false} CleanedConcat(f: string -> string, x: string, z: string)
    requires CleansByChar(f) && EndsSolid(x)
    ensures f(x + z) == f(x) + f(z)
    decreases |x|
  {
    if x == "" {
      assert x + z == z && "" + f(z) == f(z);
    } else {
      var c, t := x[0], x[1..];
      assert x == [c] + t && x + z == [c] + (t + z);
      CleanedConcat(f, t, z);
      assert t != "" ==> (t + z)[0] == t[0];
      assert Step(c, t + z) == Step(c, t);
      Assoc(Step(c, t), f(t), f(z));
    }
  }

  lemma {:induction false} LineFeedsConcat(a: string, b: string)
    requires a == "" || b == "" || a[|a| - 1] != '\r' || b[0] != '\n'
    ensures LineFeeds(a + b) == LineFeeds(a) + LineFeeds(b)
    decreases |a|
  {
    if a == "" {
      assert a + b == b;
    } else {
      assert (a + b)[1..] == a[1..] + b;
      LineFeedsConcat(a[1..], b);
    }
  }

  lemma {:induction false} LineFeedsEnds(s: string)
    requires s != ""
    ensures LineFeeds(s) != ""
    ensures LineFeeds(s)[|LineFeeds(s)| - 1] == if s[|s| - 1] == '\r' then '\n' else s[|s| - 1]
    ensures s[0] != '\r' ==> LineFeeds(s)[0] == s[0]
    decreases |s|
  {
    if |s| > 1 { LineFeedsEnds(s[1..]); }
  }

  lemma {:induction false} GapLineFeeds(g: string, from: nat)
    requires from <= |g| && forall i :: 0 <= i < |g| ==> g[i] in {' ', '\t', '\n', '\r'}
    ensures IsPlainGap(LineFeeds(g[from..])) && CountBreaks(LineFeeds(g[from..])) == |LineEnds(g, from)|
    decreases |g| - from
  {
    if from < |g| {
      GapLineFeeds(g, from + 1);
      var s := g[from..];
      assert s[1..] == g[from + 1..] && s[0] == g[from];
      if EndsLine(g, from) {
        assert LineEnds(g, from) == LineEnds(g, from + 1) + {from};
        assert LineFeeds(s) == ['\n'] + LineFeeds(s[1..]);
        assert LineFeeds(s)[1..] == LineFeeds(s[1..]);
      } else {
        assert LineEnds(g, from) == LineEnds(g, from + 1);
        if g[from] != '\r' {
          assert LineFeeds(s) == [s[0]] + LineFeeds(s[1..]);
          assert LineFeeds(s)[1..] == LineFeeds(s[1..]);
        }
      }
    }
  }

  lemma {:induction false} StripStartConcat(a: string, b: string)
    requires a != "" && !IsWhite(a[|a| - 1])
    ensures StripStart(IsWhite, a + b) == StripStart(IsWhite, a) + b
    decreases |a|
  {
    assert (a + b)[0] == a[0];
    if IsWhite(a[0]) {
      assert (a + b)[1..] == a[1..] + b;
      StripStartConcat(a[1..], b);
    }
  }

  lemma {:induction false} StripEndConcat(a: string, b: string)
    requires b != "" && !IsWhite(b[0])
    ensures StripEnd(IsWhite, a + b) == a + StripEnd(IsWhite, b)
    decreases |b|
  {
    var s := a + b;
    if IsWhite(b[|b| - 1]) {
      assert s[..|s| - 1] == a + b[..|b| - 1];
      StripEndConcat(a, b[..|b| - 1]);
    }
  }

  lemma TrimAround(a: string, gap: string, b: string)
    requires a != "" && !IsWhite(a[|a| - 1]) && b != "" && !IsWhite(b[0])
    ensures Trim(a + (gap + b)) == Trim(a) + (gap + Trim(b))
  {
    var left := StripStart(IsWhite, a);
    StripStartConcat(a, gap + b);
    Assoc(left, gap, b);
    StripEndConcat(left + gap, b);
    Assoc(left, gap, StripEnd(IsWhite, b));
  }

  lemma CleanedFirst(f: string -> string, x: string)
    requires CleansByChar(f) && x != "" && !IsWhite(x[0])
    ensures f(x) != "" && !IsWhite(f(x)[0])
  {
    assert x == [x[0]] + x[1..];
  }

  lemma {:induction false} CleanedLast(f: string -> string, front: string, c: char)
    requires CleansByChar(f) && !IsWhite(c)
    ensures f(front + [c]) != "" && f(front + [c])[|f(front + [c])| - 1] == c
    decreases |front|
  {
    if front == "" {
      assert front + [c] == [c] + "";
    } else {
      var rest := front[1..] + [c];
      assert front + [c] == [front[0]] + rest;
      CleanedLast(f, front[1..], c);
    }
  }

  lemma NormalisedAround(f: string -> string, x: string, h: string, y: string)
    requires CleansByChar(f) && IsPlainGap(h) && x != "" && !IsWhite(x[|x| - 1]) && y != "" && !IsWhite(y[0])
    ensures Trim(f(x + (h + y))) == Trim(f(x)) + (Breaks(CountBreaks(h)) + Tail(h) + Trim(f(y)))
  {
    CleanedConcat(f, x, h + y);
    CleanedGap(f, h, y);
    CleanedFirst(f, y);
    CleanedLast(f, x[..|x| - 1], x[|x| - 1]);
    assert x == x[..|x| - 1] + [x[|x| - 1]];
    TrimAround(f(x), Breaks(CountBreaks(h)) + Tail(h), f(y));
  }

  /** The gap between two texts that end and start solid, once line ends are line feeds. */
  ghost predicate Around(x: string, h: string, y: string) {
    IsPlainGap(h) && x != "" && !IsWhite(x[|x| - 1]) && y != "" && !IsWhite(y[0])
  }

  lemma LineFeedsApart(x: string, g: string, y: string)
    requires g != "" && x != "" && x[|x| - 1] != '\r' && y != "" && y[0] != '\n'
    ensures LineFeeds(x + (g + y)) == LineFeeds(x) + (LineFeeds(g) + LineFeeds(y))
  {
    LineFeedsConcat(x, g + y);
    LineFeedsConcat(g, y);
  }

  lemma LineFeedsAround(x: string, g: string, y: string)
    requires IsGap(g) && x != "" && !IsWhite(x[|x| - 1]) && y != "" && !IsWhite(y[0])
    ensures Around(LineFeeds(x), LineFeeds(g), LineFeeds(y))
  {
    LineFeedsEnds(x);
    LineFeedsEnds(y);
    GapLineFeeds(g, 0);
    assert g[0..] == g;
  }

  lemma LineFeedsOfGap(g: string)
    requires IsGap(g)
    ensures Breaks(CountBreaks(LineFeeds(g))) + Tail(LineFeeds(g)) == GapText(g)
  {
    LineFeedsEnds(g);
    GapLineFeeds(g, 0);
    assert g[0..] == g;
  }

  lemma NormalText(s: string, f: string -> string)
    requires forall h :: f(h) == Cleaned(h)
    ensures NormalizeChangeText(s) == Trim(f(LineFeeds(s)))
  {
  }

  /** Between two characters that are not white, spaces and tabs become one space, and line ends of any
      convention line feeds, followed by one space if the next line is indented. */
  lemma GapsAreNormalised(x: string, g: string, y: string)
    requires IsGap(g) && x != "" && !IsWhite(x[|x| - 1]) && y != "" && !IsWhite(y[0])
    ensures NormalizeChangeText(x + (g + y)) == NormalizeChangeText(x) + (GapText(g) + NormalizeChangeText(y))
  {
    var f := (h: string) => Cleaned(h);
    CleanedByChar(f);
    LineFeedsApart(x, g, y);
    LineFeedsAround(x, g, y);
    LineFeedsOfGap(g);
    NormalisedAround(f, LineFeeds(x), LineFeeds(g), LineFeeds(y));
    NormalText(x + (g + y), f);
    NormalText(x, f);
    NormalText(y, f);
  }
}
