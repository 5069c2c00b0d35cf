/** A promoted knowledge file: frontmatter lines between `---` lines, then the body; written and read back. */
module Frontmatter {
  import opened Text

  const DASHES := "---"

  // ----- lines -----

  /** Every `\r\n` as `\n`. */
  function Unix(s: string): string {
    if s == "" then ""
    else if |s| >= 2 && s[0] == '\r' && s[1] == '\n' then Unix(s[1..])
    else [s[0]] + Unix(s[1..])
  }

  /** `s.split(/\r?\n/)`. */
  function Lines(s: string): (lines: seq<string>)
    ensures |lines| >= 1
  {
    Split(Unix(s), '\n')
  }

  function TrimLeft(s: string): (r: string)
    ensures |r| <= |s| && (r != "" ==> !IsWhite(r[0]))
    ensures s != "" && !IsWhite(s[0]) ==> r == s
  {
    if s != "" && IsWhite(s[0]) then TrimLeft(s[1..]) else s
  }

  function TrimRight(s: string): (r: string)
    ensures |r| <= |s| && r == s[..|r|]
    ensures r != "" ==> !IsWhite(r[|r| - 1])
  {
    if s != "" && IsWhite(s[|s| - 1]) then TrimRight(s[..|s| - 1]) else s
  }

  /** `line.trim() === "---"`. */
  predicate IsDashes(line: string) {
    TrimRight(TrimLeft(line)) == DASHES
  }

  lemma {:induction false} TrimLeftParts(s: string)
    ensures s == s[..|s| - |TrimLeft(s)|] + TrimLeft(s) && IsBlank(s[..|s| - |TrimLeft(s)|])
    decreases |s|
  {
    if s != "" && IsWhite(s[0]) {
      TrimLeftParts(s[1..]);
      var n := |s| - |TrimLeft(s)|;
      assert s[..n] == [s[0]] + s[1..][..n - 1];
      assert s == [s[0]] + s[1..];
    } else {
      assert s[..0] == "";
    }
  }

  lemma {:induction false} TrimRightParts(s: string)
    ensures IsBlank(s[|TrimRight(s)|..])
    decreases |s|
  {
    if s != "" && IsWhite(s[|s| - 1]) {
      var front := s[..|s| - 1];
      TrimRightParts(front);
      assert s[|TrimRight(s)|..] == front[|TrimRight(s)|..] + [s[|s| - 1]];
    }
  }

  lemma {:induction false} TrimLeftSkips(a: string, s: string)
    requires IsBlank(a)
    ensures TrimLeft(a + s) == TrimLeft(s)
    decreases |a|
  {
    if a == "" {
      assert a + s == s;
    } else {
      assert (a + s)[1..] == a[1..] + s;
      TrimLeftSkips(a[1..], s);
    }
  }

  lemma {:induction false} TrimRightSkips(s: string, b: string)
    requires IsBlank(b)
    ensures TrimRight(s + b) == TrimRight(s)
    decreases |b|
  {
    if b == "" {
      assert s + b == s;
    } else {
      assert (s + b)[..|s + b| - 1] == s + b[..|b| - 1];
      TrimRightSkips(s, b[..|b| - 1]);
    }
  }

  /** A delimiter is three dashes with nothing but white around them. */
  lemma DashesMean(line: string)
    ensures IsDashes(line) <==> exists a, b :: IsBlank(a) && IsBlank(b) && line == a + ("---" + b)
  {
    if IsDashes(line) {
      var inner := TrimLeft(line);
      TrimLeftParts(line);
      TrimRightParts(inner);
      var a, b := line[..|line| - |inner|], inner[3..];
      assert inner == "---" + b;
      assert IsBlank(a) && IsBlank(b) && line == a + ("---" + b);
    }
    if a, b :| IsBlank(a) && IsBlank(b) && line == a + ("---" + b) {
      TrimLeftSkips(a, "---" + b);
      assert ("---" + b)[0] == '-';
      TrimRightSkips("---", b);
      assert "---"[2] == '-';
    }
  }

  // ----- reading -----

  /** The lines between the dashes, when there are any, and the rest of the text. */
  datatype Parts = Parts(front: Option<seq<string>>, body: string)

  function FirstDashes(lines: seq<string>, from: nat): (i: nat)
    requires from <= |lines|
    ensures from <= i <= |lines| && (i < |lines| ==> IsDashes(lines[i]))
    ensures forall k :: from <= k < i ==> !IsDashes(lines[k])
    decreases |lines| - from
  {
    if from == |lines| || IsDashes(lines[from]) then from else FirstDashes(lines, from + 1)
  }

  function Taken(md: string): (p: Parts) {
    var lines := Lines(md);
    if !IsDashes(lines[0]) then Parts(None, md)
    else
      var close := FirstDashes(lines, 1);
      if close == |lines| then Parts(None, md)
      else Parts(Some(lines[1..close]), Join(lines[close + 1..], "\n"))
  }

  method SplitFrontmatter(md: string) returns (p: Parts)
    ensures p == Taken(md)
  {
    var lines := Lines(md);
    if !IsDashes(lines[0]) {
      return Parts(None, md);
    }
    var close := -1;
    for i := 1 to |lines|
      invariant close == -1 && forall k :: 1 <= k < i ==> !IsDashes(lines[k])
    {
      if IsDashes(lines[i]) {
        close := i;
        break;
      }
    }
    if close < 0 {
      return Parts(None, md);
    }
    p := Parts(Some(lines[1..close]), Join(lines[close + 1..], "\n"));
  }

  // ----- writing -----

  /** The whole file. */
  function Written(front: seq<string>, body: string): string {
    Join([DASHES] + front + [DASHES], "\n") + "\n" + body
  }

  /** A frontmatter line is one line, and is not the closing one. */
  predicate IsFrontLine(line: string) {
    '\n' !in line && '\r' !in line && !IsDashes(line)
  }

  lemma {:induction false} UnixAfter(a: string, b: string)
    requires '\r' !in a
    ensures Unix(a + b) == a + Unix(b)
  {
    if a == "" {
      assert a + b == b;
    } else {
      UnixAfter(a[1..], b);
      assert (a + b)[1..] == a[1..] + b;
      assert a == [a[0]] + a[1..];
    }
  }

  lemma {:induction false} JoinHolds(pieces: seq<string>, sep: string, c: char)
    requires c !in sep && forall i :: 0 <= i < |pieces| ==> c !in pieces[i]
    ensures c !in Join(pieces, sep)
  {
    if |pieces| > 1 { JoinHolds(pieces[1..], sep, c); }
  }

  lemma DashesAreDashes()
    ensures IsDashes(DASHES)
  {
    assert DASHES[0] == '-' && DASHES[2] == '-';
  }

  lemma LinesOfWritten(front: seq<string>, body: string)
    requires forall i :: 0 <= i < |front| ==> IsFrontLine(front[i])
    ensures Lines(Written(front, body)) == [DASHES] + front + [DASHES] + Lines(body)
  {
    var top := [DASHES] + front + [DASHES];
    forall i | 0 <= i < |top| ensures '\n' !in top[i] && '\r' !in top[i] {
      if 1 <= i <= |front| { assert top[i] == front[i - 1]; }
    }
    var text := Join(top, "\n");
    JoinHolds(top, "\n", '\r');
    UnixAfter(text + "\n", body);
    SplitAt(text, '\n', Unix(body));
    SplitJoin(top, '\n');
  }

  /** Reading back what was written gives the frontmatter lines, and the body with its line ends as `\n`. */
  lemma WrittenReadsBack(front: seq<string>, body: string)
    requires forall i :: 0 <= i < |front| ==> IsFrontLine(front[i])
    ensures Taken(Written(front, body)) == Parts(Some(front), Unix(body))
  {
    var md, n := Written(front, body), |front|;
    var lines := Lines(md);
    LinesOfWritten(front, body);
    DashesAreDashes();
    assert lines[0] == DASHES && lines[n + 1] == DASHES;
    forall k | 1 <= k <= n ensures !IsDashes(lines[k]) { assert lines[k] == front[k - 1]; }
    assert FirstDashes(lines, 1) == n + 1;
    assert lines[1..n + 1] == front;
    assert lines[n + 2..] == Lines(body);
    JoinSplit(Unix(body), '\n');
  }

  predicate HoldsCrLf(s: string) {
    exists i :: 0 <= i < |s| - 1 && s[i] == '\r' && s[i + 1] == '\n'
  }

  lemma {:induction false} UnixShrinks(s: string)
    ensures |Unix(s)| <= |s|
    ensures Unix(s) == s <==> |Unix(s)| == |s|
    ensures Unix(s) == s <==> !HoldsCrLf(s)
  {
    if s != "" {
      var rest := s[1..];
      UnixShrinks(rest);
      assert s == [s[0]] + rest;
      if HoldsCrLf(rest) {
        var i :| 0 <= i < |rest| - 1 && rest[i] == '\r' && rest[i + 1] == '\n';
        assert s[i + 1] == '\r' && s[i + 2] == '\n';
      }
      if |s| >= 2 && s[0] == '\r' && s[1] == '\n' {
        assert HoldsCrLf(s);
      } else if HoldsCrLf(s) {
        var i :| 0 <= i < |s| - 1 && s[i] == '\r' && s[i + 1] == '\n';
        assert i > 0 && rest[i - 1] == '\r' && rest[i] == '\n';
      }
    }
  }

  /** The body comes back unchanged exactly when it holds no `\r\n`. */
  lemma BodyRoundTrip(front: seq<string>, body: string)
    requires forall i :: 0 <= i < |front| ==> IsFrontLine(front[i])
    ensures Taken(Written(front, body)).front == Some(front)
    ensures Taken(Written(front, body)).body == body <==> !HoldsCrLf(body)
  {
    WrittenReadsBack(front, body);
    UnixShrinks(body);
  }
}
