/** Binding a refute vote to a required change: the canonical form of a change's text, and which change a
    vote is about. */
module RefuteBinding {
  import opened Text
  import opened Bags

  // ----- canonical text -----

  /** `\r\n` and a lone `\r` become `\n`. */
  function LineFeeds(s: string): string {
    if s == "" then ""
    else if s[0] == '\r' && |s| >= 2 && s[1] == '\n' then LineFeeds(s[1..])
    else [if s[0] == '\r' then '\n' else s[0]] + LineFeeds(s[1..])
  }

  predicate IsBlankChar(c: char) {
    c == ' ' || c == '\t'
  }

  /** Each run of spaces and tabs becomes one space. */
  function Collapse(line: string): string {
    if line == "" then ""
    else if !IsBlankChar(line[0]) then [line[0]] + Collapse(line[1..])
    else if |line| >= 2 && IsBlankChar(line[1]) then Collapse(line[1..])
    else " " + Collapse(line[1..])
  }

  function StripEnd(p: char -> bool, s: string): (r: string)
    ensures |r| <= |s| && r == s[..|r|] && (r != "" ==> !p(r[|r| - 1]))
    ensures s != "" && !p(s[|s| - 1]) ==> r == s
  {
    if s != "" && p(s[|s| - 1]) then StripEnd(p, s[..|s| - 1]) else s
  }

  function StripStart(p: char -> bool, s: string): (r: string)
    ensures |r| <= |s| && r == s[|s| - |r|..] && (r != "" ==> !p(r[0]))
    ensures s != "" && !p(s[0]) ==> r == s
  {
    if s != "" && p(s[0]) then StripStart(p, s[1..]) else s
  }

  function Trim(s: string): string {
    StripEnd(IsWhite, StripStart(IsWhite, s))
  }

  function CleanLine(line: string): string {
    StripEnd(IsBlankChar, Collapse(line))
  }

  function CleanLines(lines: seq<string>): (r: seq<string>)
    ensures |r| == |lines| && forall i :: 0 <= i < |lines| ==> r[i] == CleanLine(lines[i])
  {
    seq(|lines|, i requires 0 <= i < |lines| => CleanLine(lines[i]))
  }

  function NormalizeChangeText(s: string): string {
    Trim(Join(CleanLines(Split(LineFeeds(s), '\n')), "\n"))
  }

  /** No carriage return or tab, no two spaces together, and no space at the end of a line. */
  predicate Tidy(s: string) {
    && (forall i :: 0 <= i < |s| ==> s[i] != '\r' && s[i] != '\t')
    && (forall i :: 0 <= i < |s| - 1 ==> s[i] == ' ' ==> s[i + 1] != ' ' && s[i + 1] != '\n')
  }

  /** Tidy, and white at neither end. */
  predicate Canonical(s: string) {
    Tidy(s) && (s != "" ==> !IsWhite(s[0]) && !IsWhite(s[|s| - 1]))
  }

  lemma {:induction false} NoReturnsLeft(s: string)
    ensures '\r' !in LineFeeds(s)
  {
    if s != "" { NoReturnsLeft(s[1..]); }
  }

  lemma {:induction false} CollapseIsTidy(line: string)
    requires '\r' !in line && '\n' !in line
    ensures Tidy(Collapse(line)) && '\n' !in Collapse(line)
    ensures line != "" && !IsBlankChar(line[0]) ==> Collapse(line) != "" && Collapse(line)[0] == line[0]
  {
    if line != "" {
      var rest := line[1..];
      CollapseIsTidy(rest);
      if IsBlankChar(line[0]) && !(|line| >= 2 && IsBlankChar(line[1])) {
        assert rest != "" ==> rest[0] == line[1];
        assert rest == "" ==> Collapse(rest) == "";
      }
    }
  }

  lemma PrefixIsTidy(s: string, n: nat)
    requires Tidy(s) && n <= |s|
    ensures Tidy(s[..n])
  {
  }

  lemma SuffixIsTidy(s: string, n: nat)
    requires Tidy(s) && n <= |s|
    ensures Tidy(s[n..])
  {
    var t := s[n..];
    forall i | 0 <= i < |t| - 1 && t[i] == ' ' ensures t[i + 1] != ' ' && t[i + 1] != '\n' {
      assert t[i] == s[n + i] && t[i + 1] == s[n + i + 1];
    }
  }

  /** A line that is tidy and does not end in a space. */
  predicate CleanEnd(line: string) {
    Tidy(line) && '\n' !in line && (line != "" ==> line[|line| - 1] != ' ')
  }

  lemma CleanLineIsClean(line: string)
    requires '\r' !in line && '\n' !in line
    ensures CleanEnd(CleanLine(line))
  {
    CollapseIsTidy(line);
    PrefixIsTidy(Collapse(line), |CleanLine(line)|);
  }

  lemma {:induction false} JoinedLinesAreTidy(lines: seq<string>)
    requires forall i :: 0 <= i < |lines| ==> CleanEnd(lines[i])
    ensures Tidy(Join(lines, "\n"))
    decreases |lines|
  {
    if |lines| > 1 {
      JoinedLinesAreTidy(lines[1..]);
      BreakKeepsTidy(lines[0], Join(lines[1..], "\n"));
    }
  }

  lemma BreakKeepsTidy(line: string, rest: string)
    requires CleanEnd(line) && Tidy(rest)
    ensures Tidy(line + "\n" + rest)
  {
    var t := line + "\n" + rest;
    forall i | 0 <= i < |t| - 1 && t[i] == ' ' ensures t[i + 1] != ' ' && t[i + 1] != '\n' {
      if i > |line| { assert t[i] == rest[i - |line| - 1] && t[i + 1] == rest[i - |line|]; }
    }
  }

  lemma TrimIsCanonical(s: string)
    requires Tidy(s)
    ensures Canonical(Trim(s))
  {
    var mid := StripStart(IsWhite, s);
    SuffixIsTidy(s, |s| - |mid|);
    PrefixIsTidy(mid, |Trim(s)|);
    if Trim(s) != "" { assert Trim(s)[0] == mid[0]; }
  }

  lemma {:induction false} SplitHolds(s: string, c: char, x: char)
    requires x !in s
    ensures forall i :: 0 <= i < |Split(s, c)| ==> x !in Split(s, c)[i]
  {
    if s != "" { SplitHolds(s[1..], c, x); }
  }

  lemma NormalizedIsCanonical(s: string)
    ensures Canonical(NormalizeChangeText(s))
  {
    var lines := Split(LineFeeds(s), '\n');
    NoReturnsLeft(s);
    SplitHolds(LineFeeds(s), '\n', '\r');
    PiecesHoldNoSeparator(LineFeeds(s), '\n');
    forall i | 0 <= i < |lines| ensures CleanEnd(CleanLines(lines)[i]) { CleanLineIsClean(lines[i]); }
    JoinedLinesAreTidy(CleanLines(lines));
    TrimIsCanonical(Join(CleanLines(lines), "\n"));
  }

  // ----- canonical text is left alone -----

  lemma {:induction false} NoReturnsNoChange(s: string)
    requires '\r' !in s
    ensures LineFeeds(s) == s
  {
    if s != "" { NoReturnsNoChange(s[1..]); }
  }

  lemma {:induction false} TidyLineIsKept(line: string)
    requires Tidy(line)
    ensures Collapse(line) == line
  {
    if line != "" {
      SuffixIsTidy(line, 1);
      TidyLineIsKept(line[1..]);
    }
  }

  /** The lines of a tidy text are tidy, and all but the last end cleanly. */
  lemma {:induction false} TidyLines(s: string)
    requires Tidy(s)
    ensures var lines := Split(s, '\n');
      && (forall i :: 0 <= i < |lines| ==> Tidy(lines[i]))
      && (forall i :: 0 <= i < |lines| - 1 ==> CleanEnd(lines[i]))
      && (s != "" && s[|s| - 1] != ' ' ==> CleanEnd(lines[|lines| - 1]))
      && (s != "" && s[0] != '\n' ==> lines[0] != "" && lines[0][0] == s[0])
      && (s != "" && s[0] == '\n' ==> lines[0] == "")
      && (s == "" ==> lines == [""])
    decreases |s|
  {
    if s != "" {
      var rest := s[1..];
      SuffixIsTidy(s, 1);
      TidyLines(rest);
      PiecesHoldNoSeparator(s, '\n');
      PiecesHoldNoSeparator(rest, '\n');
      var lines, tail := Split(s, '\n'), Split(rest, '\n');
      assert lines[1..] == if s[0] == '\n' then tail else tail[1..];
      assert forall i :: 1 <= i < |lines| ==> lines[i] == lines[1..][i - 1];
      if s[0] != '\n' { FirstLineIsTidy(s, tail[0]); }
    }
  }

  lemma FirstLineIsTidy(s: string, piece: string)
    requires s != "" && Tidy(s) && s[0] != '\n' && Tidy(piece) && '\n' !in piece
    requires s[1..] != "" && s[1] != '\n' ==> piece != "" && piece[0] == s[1]
    requires s[1..] == "" || s[1] == '\n' ==> piece == ""
    ensures Tidy([s[0]] + piece)
    ensures CleanEnd(piece) && |s| > 1 ==> CleanEnd([s[0]] + piece)
  {
  }

  lemma CanonicalIsKept(s: string)
    requires Canonical(s)
    ensures NormalizeChangeText(s) == s
  {
    NoReturnsNoChange(s);
    var lines := Split(s, '\n');
    TidyLines(s);
    forall i | 0 <= i < |lines| ensures CleanLine(lines[i]) == lines[i] {
      TidyLineIsKept(lines[i]);
      assert CleanEnd(lines[i]) || s == "";
    }
    assert CleanLines(lines) == lines;
    JoinSplit(s, '\n');
  }

  /** Normalising is idempotent, and changes exactly the texts that are not canonical. */
  lemma NormalFormOfChanges(s: string)
    ensures NormalizeChangeText(NormalizeChangeText(s)) == NormalizeChangeText(s)
    ensures NormalizeChangeText(s) == s <==> Canonical(s)
  {
    NormalizedIsCanonical(s);
    CanonicalIsKept(NormalizeChangeText(s));
    if Canonical(s) { CanonicalIsKept(s); }
  }

  // ----- which change a vote is about -----

  // Long literals are written in two parts: the verifier can look inside a short one.
  const HASH_VERSION := "refute-target" + "-change:v1"

  function Digest(sha: string -> string, version: string, text: string): string {
    sha(version + "\0" + text)
  }

  function TargetChangeHash(sha: string -> string, text: string): string {
    Digest(sha, HASH_VERSION, NormalizeChangeText(text))
  }

  /** With a digest that tells texts apart, two changes share a target hash exactly when their canonical
      texts are equal. */
  lemma HashIsCanonicalText(sha: string -> string, x: string, y: string)
    requires forall a, b :: sha(a) == sha(b) ==> a == b
    ensures TargetChangeHash(sha, x) == TargetChangeHash(sha, y) <==> NormalizeChangeText(x) == NormalizeChangeText(y)
  {
    DigestTellsApart(sha, HASH_VERSION, NormalizeChangeText(x), NormalizeChangeText(y));
  }

  lemma DigestTellsApart(sha: string -> string, version: string, x: string, y: string)
    requires forall a, b :: sha(a) == sha(b) ==> a == b
    ensures Digest(sha, version, x) == Digest(sha, version, y) <==> x == y
  {
    var head := version + "\0";
    assert (head + x)[|head|..] == x && (head + y)[|head|..] == y;
  }

  /** What is hashed: the version, a zero and the canonical text. */
  lemma TargetHashIs(sha: string -> string, text: string)
    ensures TargetChangeHash(sha, text) == sha("refute-target" + "-change:v1" + "\0" + NormalizeChangeText(text))
  {
  }

  /** How a change's text is reduced, and how it is hashed. */
  datatype Coding = Coding(normal: string -> string, hash: string -> string)

  function CodingOf(sha: string -> string): Coding {
    Coding((text: string) => NormalizeChangeText(text), (text: string) => TargetChangeHash(sha, text))
  }

  datatype Change = Change(idx: int, text: Option<string>)

  datatype BindingVote = BindingVote(declared: Option<string>, text: Option<string>)

  datatype Active = Active(idx: int, normalized: string)

  datatype Rejection = MissingTarget | HashMismatch | UnknownTarget

  datatype Binding = Bound(active: Active, target: string) | Unbound(reason: Rejection, rejected: Option<string>)

  predicate Hashes(code: Coding, c: Change, h: string) {
    c.text.Some? && code.hash(c.text.value) == h
  }

  predicate IsActive(code: Coding, changes: seq<Change>, h: string) {
    exists i :: 0 <= i < |changes| && Hashes(code, changes[i], h)
  }

  /** `a` describes a change with this hash, and no change with this hash has a smaller index. */
  ghost predicate IsFirst(code: Coding, changes: seq<Change>, h: string, a: Active) {
    && (exists c :: c in changes && Hashes(code, c, h) && c.idx == a.idx && code.normal(c.text.value) == a.normalized)
    && (forall c :: c in changes && Hashes(code, c, h) ==> a.idx <= c.idx)
  }

  predicate ByIndex(a: Change, b: Change) {
    a.idx <= b.idx
  }

  /** Go through the changes by index; the first to claim a hash keeps it. */
  method ActiveRequiredChangeMap(code: Coding, changes: seq<Change>) returns (out: map<string, Active>)
    ensures forall h :: h in out <==> IsActive(code, changes, h)
    ensures forall h :: h in out ==> IsFirst(code, changes, h, out[h])
  {
    var sorted := Sort(ByIndex, changes);
    SortIsInOrder(ByIndex, changes);
    SameElements(sorted, changes);
    out := map[];
    for i := 0 to |sorted|
      invariant forall h :: h in out <==> IsActive(code, sorted[..i], h)
      invariant forall h :: h in out ==> IsFirst(code, sorted[..i], h, out[h])
    {
      var change := sorted[i];
      ghost var before := out;
      if change.text.Some? {
        var hash := code.hash(change.text.value);
        if hash !in out {
          out := out[hash := Active(change.idx, code.normal(change.text.value))];
        }
      }
      forall h
        ensures h in out <==> IsActive(code, sorted[..i + 1], h)
        ensures h in out ==> IsFirst(code, sorted[..i + 1], h, out[h])
      {
        FirstStep(code, sorted, i, h, if h in before then Some(before[h]) else None);
      }
    }
    assert sorted[..|sorted|] == sorted;
    forall h ensures IsActive(code, sorted, h) <==> IsActive(code, changes, h) {
      SameActive(code, sorted, changes, h);
      SameActive(code, changes, sorted, h);
    }
  }

  lemma SameActive(code: Coding, a: seq<Change>, b: seq<Change>, h: string)
    requires forall c :: c in a ==> c in b
    ensures IsActive(code, a, h) ==> IsActive(code, b, h)
  {
    if IsActive(code, a, h) {
      var i :| 0 <= i < |a| && Hashes(code, a[i], h);
      assert a[i] in b;
    }
  }

  lemma FirstStep(code: Coding, sorted: seq<Change>, i: nat, h: string, found: Option<Active>)
    requires i < |sorted| && InOrder(ByIndex, sorted)
    requires found.Some? <==> IsActive(code, sorted[..i], h)
    requires found.Some? ==> IsFirst(code, sorted[..i], h, found.value)
    ensures IsActive(code, sorted[..i + 1], h) <==> found.Some? || Hashes(code, sorted[i], h)
    ensures found.Some? ==> IsFirst(code, sorted[..i + 1], h, found.value)
    ensures found.None? && Hashes(code, sorted[i], h) ==>
      IsFirst(code, sorted[..i + 1], h, Active(sorted[i].idx, code.normal(sorted[i].text.value)))
  {
    var before, after := sorted[..i], sorted[..i + 1];
    assert after == before + [sorted[i]];
    assert after[i] == sorted[i];
    if found.Some? {
      var k :| 0 <= k < |before| && Hashes(code, before[k], h);
      assert after[k] == before[k];
      FirstStays(code, sorted, i, h, found.value);
    }
  }

  lemma FirstStays(code: Coding, sorted: seq<Change>, i: nat, h: string, a: Active)
    requires i < |sorted| && InOrder(ByIndex, sorted) && IsFirst(code, sorted[..i], h, a)
    ensures IsFirst(code, sorted[..i + 1], h, a)
  {
    var before, after := sorted[..i], sorted[..i + 1];
    assert after == before + [sorted[i]];
    var c :| c in before && Hashes(code, c, h) && c.idx == a.idx && code.normal(c.text.value) == a.normalized;
    assert c in after;
    var m :| 0 <= m < |before| && before[m] == c;
    assert ByIndex(sorted[m], sorted[i]);
  }

  /** The hash a vote points at, when what it declares and what it quotes do not disagree. */
  function Pointed(code: Coding, v: BindingVote): Option<string> {
    if v.text.None? then v.declared
    else
      var computed := code.hash(v.text.value);
      if v.declared.Some? && v.declared.value != computed then None else Some(computed)
  }

  /** A vote is bound exactly when it points at an active change, and then to the first such change. */
  method VerifyRefuteBinding(code: Coding, v: BindingVote, changes: seq<Change>) returns (b: Binding)
    ensures b.Bound? <==> Pointed(code, v).Some? && IsActive(code, changes, Pointed(code, v).value)
    ensures b.Bound? ==> Pointed(code, v) == Some(b.target) && IsFirst(code, changes, b.target, b.active)
    ensures b.Unbound? ==> (b.reason == MissingTarget <==> v.text.None? && v.declared.None?)
    ensures b.Unbound? ==> (b.reason == HashMismatch <==> v.text.Some? && Pointed(code, v).None?)
  {
    var active := ActiveRequiredChangeMap(code, changes);
    if v.text.Some? {
      var computed := code.hash(v.text.value);
      if v.declared.Some? && v.declared.value != computed {
        return Unbound(HashMismatch, Some(computed));
      }
      if computed !in active {
        return Unbound(UnknownTarget, Some(computed));
      }
      return Bound(active[computed], computed);
    }
    if v.declared.None? {
      return Unbound(MissingTarget, None);
    }
    if v.declared.value !in active {
      return Unbound(UnknownTarget, v.declared);
    }
    b := Bound(active[v.declared.value], v.declared.value);
  }

  /** The hash separates changes whose canonical texts differ. */
  ghost predicate TellsApart(code: Coding) {
    forall x, y :: code.hash(x) == code.hash(y) ==> code.normal(x) == code.normal(y)
  }

  lemma DigestCodingTellsApart(sha: string -> string)
    requires forall a, b :: sha(a) == sha(b) ==> a == b
    ensures TellsApart(CodingOf(sha))
  {
    var code := CodingOf(sha);
    forall x, y | code.hash(x) == code.hash(y) ensures code.normal(x) == code.normal(y) {
      HashIsCanonicalText(sha, x, y);
    }
  }

  /** A vote that quotes its target is bound to a change with the same canonical text. */
  lemma BoundTextsAgree(code: Coding, v: BindingVote, changes: seq<Change>, a: Active)
    requires TellsApart(code)
    requires v.text.Some? && Pointed(code, v).Some? && IsFirst(code, changes, Pointed(code, v).value, a)
    ensures code.normal(v.text.value) == a.normalized
  {
    var c :| c in changes && Hashes(code, c, Pointed(code, v).value) && code.normal(c.text.value) == a.normalized;
  }

  /** So, given a digest that tells texts apart, a vote on the harness's own hashes that quotes its target is
      bound to a change that reads the same up to spacing and line ends. */
  lemma QuotedTargetReadsTheSame(sha: string -> string, v: BindingVote, changes: seq<Change>, a: Active)
    requires forall x, y :: sha(x) == sha(y) ==> x == y
    requires v.text.Some? && Pointed(CodingOf(sha), v).Some?
    requires IsFirst(CodingOf(sha), changes, Pointed(CodingOf(sha), v).value, a)
    ensures CodingOf(sha).normal(v.text.value) == a.normalized
  {
    DigestCodingTellsApart(sha);
    BoundTextsAgree(CodingOf(sha), v, changes, a);
  }
}
