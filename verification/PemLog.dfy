/**
 * What the log of a command shows: line by line, which lines are withheld and which are printed, and
 * what a private-key marker is.
 */
module PemLog {
  import opened Text
  import opened LineRedactor
  import opened PemLines

  // ----- markers as text -----

  /** A label of capitals, digits and blanks followed by a blank, or nothing. */
  predicate IsLabel(text: string) {
    text == "" || (|text| >= 2 && text[|text| - 1] == ' ' && forall i :: 0 <= i < |text| ==> IsHeaderText(text[i]))
  }

  predicate IsHeaderText(c: char) {
    c == ' ' || 'A' <= c <= 'Z' || '0' <= c <= '9'
  }

  /** `-----BEGIN [label ]PRIVATE KEY-----`, or with `END`. */
  function MarkerText(begins: bool, tag: string): string {
    "-----" + ((if begins then "BEGIN " else "END ") + (tag + "PRIVATE KEY")) + "-----"
  }

  ghost predicate IsMarkerText(text: string, begins: bool) {
    exists tag :: IsLabel(tag) && text == MarkerText(begins, tag)
  }

  lemma KindOfHeader(begins: bool, tag: string)
    requires IsLabel(tag)
    ensures KindOf((if begins then "BEGIN " else "END ") + (tag + KEY)) == Some(begins)
  {
    var word := if begins then "BEGIN " else "END ";
    var header, name := word + (tag + KEY), tag + KEY;
    assert header[|word|..] == name && header[..|word|] == word;
    assert name[|tag|..] == KEY && name[..|tag|] == tag;
    if !begins { assert header[0] == 'E' && "BEGIN "[0] == 'B'; assert header[..6][0] == 'E'; }
  }

  lemma NameParts(name: string) returns (tag: string)
    requires IsKeyName(name) && forall i :: 0 <= i < |name| ==> IsHeaderChar(name[i])
    ensures IsLabel(tag) && name == tag + KEY
  {
    tag := name[..|name| - |KEY|];
    assert name == tag + name[|name| - |KEY|..];
  }

  lemma WordAndRest(header: string, word: string)
    requires StartsWith(header, word)
    ensures header == word + header[|word|..]
  {
  }

  lemma HeaderOfKind(header: string) returns (tag: string)
    requires KindOf(header).Some? && forall i :: 0 <= i < |header| ==> IsHeaderChar(header[i])
    ensures IsLabel(tag) && header == (if KindOf(header).value then "BEGIN " else "END ") + (tag + KEY)
  {
    var word := if KindOf(header).value then "BEGIN " else "END ";
    WordAndRest(header, word);
    tag := NameParts(header[|word|..]);
  }

  /** A header is a marker's exactly when it reads `BEGIN` or `END`, an optional label, and `PRIVATE KEY`. */
  lemma KindMeans(header: string, begins: bool)
    requires forall i :: 0 <= i < |header| ==> IsHeaderChar(header[i])
    ensures KindOf(header) == Some(begins) <==>
      exists tag :: IsLabel(tag) && header == (if begins then "BEGIN " else "END ") + (tag + KEY)
  {
    if KindOf(header) == Some(begins) {
      var tag := HeaderOfKind(header);
    }
    if tag :| IsLabel(tag) && header == (if begins then "BEGIN " else "END ") + (tag + KEY) { KindOfHeader(begins, tag); }
  }

  // ----- the log -----

  /** How lines are read: the kind of the last marker on a line, whether there is one, whether it looks secret;
      and what is shown for a line withheld. */
  datatype Reader = Reader(kind: string -> Option<bool>, marked: string -> bool, likelySecret: string -> bool, withheld: string)

  function PemReader(likelySecret: string -> bool): Reader {
    Reader((line: string) => LastTaken(MarksOf(KindOf, line), 0), (line: string) => HasMarker(MarksOf(KindOf, line)), likelySecret, WITHHELD)
  }

  /** What happens to a line: withheld in an open block, with a marker, when it looks secret, and when it is
      over-long; printed otherwise. */
  function Shown(rd: Reader, open: bool, line: string): string {
    if |line| > MAX_LINE || open || rd.marked(line) || rd.likelySecret(line) then rd.withheld else line
  }

  /** Whether a private-key block is open before line `i`: the last earlier line with a marker left it so. */
  ghost predicate InsideBlock(rd: Reader, open: bool, lines: seq<string>, i: nat)
    requires i <= |lines|
  {
    || (open && forall k :: 0 <= k < i ==> rd.kind(lines[k]) == None)
    || exists j :: 0 <= j < i && rd.kind(lines[j]) == Some(true) && forall k :: j < k < i ==> rd.kind(lines[k]) == None
  }

  function After(rd: Reader, open: bool, line: string): bool {
    if rd.kind(line).Some? then rd.kind(line).value else open
  }

  /** The block state before line `i`. */
  function StateBefore(rd: Reader, open: bool, lines: seq<string>, i: nat): bool
    requires i <= |lines|
    decreases i
  {
    if i == 0 then open else After(rd, StateBefore(rd, open, lines, i - 1), lines[i - 1])
  }

  lemma {:induction false} StateIsInside(rd: Reader, open: bool, lines: seq<string>, i: nat)
    requires i <= |lines|
    ensures StateBefore(rd, open, lines, i) <==> InsideBlock(rd, open, lines, i)
    decreases i
  {
    if i > 0 {
      StateIsInside(rd, open, lines, i - 1);
      InsideStep(rd, open, lines, i);
    }
  }

  lemma InsideStep(rd: Reader, open: bool, lines: seq<string>, i: nat)
    requires 0 < i <= |lines|
    ensures InsideBlock(rd, open, lines, i) <==> After(rd, InsideBlock(rd, open, lines, i - 1), lines[i - 1])
  {
    var kind := rd.kind(lines[i - 1]);
    if kind == None {
      if j :| 0 <= j < i - 1 && rd.kind(lines[j]) == Some(true) && forall k :: j < k < i - 1 ==> rd.kind(lines[k]) == None {
        assert forall k :: j < k < i ==> rd.kind(lines[k]) == None;
      }
      if j :| 0 <= j < i && rd.kind(lines[j]) == Some(true) && forall k :: j < k < i ==> rd.kind(lines[k]) == None {
        assert j < i - 1;
      }
    }
  }

  /** The log's lines, for the first `n` lines of the output. */
  function LogLines(rd: Reader, open: bool, lines: seq<string>, n: nat): (r: seq<string>)
    requires n <= |lines|
    ensures |r| == n
    decreases n
  {
    if n == 0 then [] else LogLines(rd, open, lines, n - 1) + [Shown(rd, StateBefore(rd, open, lines, n - 1), lines[n - 1])]
  }

  lemma {:induction false} LogLineAt(rd: Reader, open: bool, lines: seq<string>, n: nat, i: nat)
    requires i < n <= |lines|
    ensures LogLines(rd, open, lines, n)[i] == Shown(rd, StateBefore(rd, open, lines, i), lines[i])
    decreases n
  {
    if i < n - 1 { LogLineAt(rd, open, lines, n - 1, i); }
  }

  /** Each line followed by a newline. */
  function Terminated(lines: seq<string>): string {
    if lines == [] then "" else Terminated(lines[..|lines| - 1]) + lines[|lines| - 1] + "\n"
  }

  lemma {:induction false} JoinTerminated(lines: seq<string>, last: string)
    ensures Join(lines + [last], "\n") == Terminated(lines) + last
    decreases |lines|
  {
    if lines == [] {
      assert lines + [last] == [last];
    } else {
      JoinTerminated(lines[1..], last);
      TerminatedCons(lines);
      assert (lines + [last])[1..] == lines[1..] + [last];
      Assoc(lines[0] + "\n", Terminated(lines[1..]), last);
    }
  }

  lemma {:induction false} TerminatedCons(lines: seq<string>)
    requires lines != []
    ensures Terminated(lines) == lines[0] + "\n" + Terminated(lines[1..])
    decreases |lines|
  {
    if |lines| > 1 {
      var n := |lines| - 1;
      TerminatedCons(lines[..n]);
      assert lines[..n][1..] == lines[1..][..n - 1];
      Assoc(lines[0] + "\n", Terminated(lines[1..][..n - 1]), lines[n]);
      Assoc(lines[0] + "\n", Terminated(lines[1..][..n - 1]) + lines[n], "\n");
    } else {
      assert lines[..0] == [] && lines[1..] == [];
    }
  }

  lemma LineEmitted(likelySecret: string -> bool, open: bool, line: string)
    ensures EmitLine(PemRules(likelySecret), open, line) ==
      (After(PemReader(likelySecret), open, line), Shown(PemReader(likelySecret), open, line))
  {
    NetIsLastTaken(open, MarksOf(KindOf, line), 0);
  }

  /** The rules read lines as the reader does. */
  ghost predicate Reads(r: Rules<bool>, rd: Reader) {
    forall open, line :: EmitLine(r, open, line) == (After(rd, open, line), Shown(rd, open, line))
  }

  lemma PemRulesRead(likelySecret: string -> bool)
    ensures Reads(PemRules(likelySecret), PemReader(likelySecret))
  {
    forall open, line
      ensures EmitLine(PemRules(likelySecret), open, line) == (After(PemReader(likelySecret), open, line), Shown(PemReader(likelySecret), open, line))
    {
      LineEmitted(likelySecret, open, line);
    }
  }

  lemma TerminatedSnoc(lines: seq<string>, last: string)
    ensures Terminated(lines + [last]) == Terminated(lines) + last + "\n"
  {
    assert (lines + [last])[..|lines|] == lines;
  }

  lemma EmitSnoc(r: Rules<bool>, open: bool, lines: seq<string>, n: nat)
    requires 0 < n <= |lines|
    ensures var (s, out) := EmitLines(r, open, lines[..n - 1]);
      var (t, shown) := EmitLine(r, s, lines[n - 1]);
      EmitLines(r, open, lines[..n]) == (t, out + shown + "\n")
  {
    assert lines[..n][..n - 1] == lines[..n - 1];
  }

  lemma {:induction false} LinesEmitted(r: Rules<bool>, rd: Reader, open: bool, lines: seq<string>, n: nat)
    requires Reads(r, rd) && n <= |lines|
    ensures EmitLines(r, open, lines[..n]) == (StateBefore(rd, open, lines, n), Terminated(LogLines(rd, open, lines, n)))
    decreases n
  {
    if n > 0 {
      LinesEmitted(r, rd, open, lines, n - 1);
      EmitSnoc(r, open, lines, n);
      var before := StateBefore(rd, open, lines, n - 1);
      assert EmitLine(r, before, lines[n - 1]) == (After(rd, before, lines[n - 1]), Shown(rd, before, lines[n - 1]));
      TerminatedSnoc(LogLines(rd, open, lines, n - 1), Shown(rd, before, lines[n - 1]));
    }
  }

  lemma WithheldIsOneLine()
    ensures '\n' !in WITHHELD
  {
    var a, b, c := "[redacted: secret", "-shaped line ", "withheld]";
    assert '\n' !in a && '\n' !in b && '\n' !in c;
  }

  /** The last piece: nothing when the text ends its last line, that line otherwise. */
  function LastShown(rd: Reader, open: bool, lines: seq<string>): string
    requires |lines| >= 1
  {
    var n := |lines| - 1;
    if lines[n] == "" then "" else Shown(rd, StateBefore(rd, open, lines, n), lines[n])
  }

  function ShownLines(rd: Reader, open: bool, lines: seq<string>): seq<string>
    requires |lines| >= 1
  {
    LogLines(rd, open, lines, |lines| - 1) + [LastShown(rd, open, lines)]
  }

  lemma RedactedParts(r: Rules<bool>, open: bool, text: string, lines: seq<string>, state: bool, front: string)
    requires lines == Split(text, '\n') && EmitLines(r, open, lines[..|lines| - 1]) == (state, front)
    ensures Redacted(r, open, text).1 ==
      front + if lines[|lines| - 1] == "" then "" else EmitLine(r, state, lines[|lines| - 1]).1
  {
    assert front + "" == front;
  }

  lemma RedactedLines(r: Rules<bool>, rd: Reader, open: bool, text: string)
    requires Reads(r, rd)
    ensures Redacted(r, open, text).1 == Join(ShownLines(rd, open, Split(text, '\n')), "\n")
  {
    var lines := Split(text, '\n');
    var n := |lines| - 1;
    var state, log := StateBefore(rd, open, lines, n), LogLines(rd, open, lines, n);
    LinesEmitted(r, rd, open, lines, n);
    RedactedParts(r, open, text, lines, state, Terminated(log));
    assert EmitLine(r, state, lines[n]) == (After(rd, state, lines[n]), Shown(rd, state, lines[n]));
    JoinTerminated(log, LastShown(rd, open, lines));
  }

  lemma RedactedSplits(r: Rules<bool>, rd: Reader, open: bool, text: string)
    requires Reads(r, rd) && '\n' !in rd.withheld
    ensures Split(Redacted(r, open, text).1, '\n') == ShownLines(rd, open, Split(text, '\n'))
  {
    RedactedLines(r, rd, open, text);
    ShownHasNoBreaks(rd, open, text);
    SplitJoin(ShownLines(rd, open, Split(text, '\n')), '\n');
  }

  lemma ShownHasNoBreaks(rd: Reader, open: bool, text: string)
    requires '\n' !in rd.withheld
    ensures var shown := ShownLines(rd, open, Split(text, '\n'));
      forall k :: 0 <= k < |shown| ==> '\n' !in shown[k]
  {
    PiecesHoldNoSeparator(text, '\n');
    var lines := Split(text, '\n');
    var shown := ShownLines(rd, open, lines);
    forall k | 0 <= k < |shown| ensures '\n' !in shown[k] {
      if k < |shown| - 1 { LogLineAt(rd, open, lines, |lines| - 1, k); }
    }
  }

  /** What the log says about one line: withheld if it is over-long, looks secret, has a marker or lies inside
      an open block, and printed as it is otherwise. */
  ghost function Line(rd: Reader, open: bool, lines: seq<string>, i: nat): string
    requires i < |lines|
  {
    if i == |lines| - 1 && lines[i] == "" then ""
    else if |lines[i]| > 1_048_576 || rd.likelySecret(lines[i]) || rd.marked(lines[i]) || InsideBlock(rd, open, lines, i)
    then rd.withheld else lines[i]
  }

  lemma ShownAt(rd: Reader, open: bool, lines: seq<string>, i: nat)
    requires i < |lines|
    ensures |ShownLines(rd, open, lines)| == |lines|
    ensures ShownLines(rd, open, lines)[i] == Line(rd, open, lines, i)
  {
    StateIsInside(rd, open, lines, i);
    if i < |lines| - 1 { LogLineAt(rd, open, lines, |lines| - 1, i); }
  }

  /** For every cutting of an output whose over-long lines are harmless, so for every output without
      over-long lines, the log has the output's lines, each printed or withheld as `Line` says. */
  lemma LogShows(likelySecret: string -> bool, open: bool, chunks: seq<string>, i: nat)
    requires forall line :: line in Split(Flatten(chunks), '\n') ==> Harmless(line)
    requires i < |Split(Flatten(chunks), '\n')|
    ensures var lines := Split(Flatten(chunks), '\n');
      var log := Split(Streamed(PemRules(likelySecret), open, chunks).1, '\n');
      |log| == |lines| && log[i] == Line(PemReader(likelySecret), open, lines, i)
  {
    LogIsChunkIndependent(likelySecret, open, chunks);
    LogShowsText(PemRules(likelySecret), PemReader(likelySecret), likelySecret, open, Flatten(chunks), i);
  }

  lemma LogShowsText(r: Rules<bool>, rd: Reader, likelySecret: string -> bool, open: bool, text: string, i: nat)
    requires r == PemRules(likelySecret) && rd == PemReader(likelySecret) && i < |Split(text, '\n')|
    ensures var log := Split(Redacted(r, open, text).1, '\n');
      |log| == |Split(text, '\n')| && log[i] == Line(rd, open, Split(text, '\n'), i)
  {
    PemRulesRead(likelySecret);
    WithheldIsOneLine();
    RedactedSplits(r, rd, open, text);
    ShownAt(rd, open, Split(text, '\n'), i);
  }

  /** The reader's notions are those of the markers. */
  lemma ReaderMeans(likelySecret: string -> bool, line: string)
    ensures PemReader(likelySecret).marked(line) <==> HasMarker(MarksOf(KindOf, line))
    ensures PemReader(likelySecret).kind(line) == LastTaken(MarksOf(KindOf, line), 0)
    ensures PemReader(likelySecret).likelySecret(line) <==> likelySecret(line)
    ensures PemReader(likelySecret).withheld == WITHHELD
  {
  }

  /** What a line leaves behind: nothing without a marker, and with markers that do not run into each other
      the state its last one calls for. */
  lemma LastKindMeans(likelySecret: string -> bool, line: string)
    ensures var marks, kind := MarksOf(KindOf, line), PemReader(likelySecret).kind(line);
      && (kind == None <==> !HasMarker(marks))
      && (Apart(marks) ==> forall m: nat :: IsLast(marks, m) ==> kind == Some(marks[m].value.begins))
  {
    var marks := MarksOf(KindOf, line);
    NetIsLastTaken(true, marks, 0);
    NetIsLastTaken(false, marks, 0);
    if HasMarker(marks) {
      TakenIfAny(marks, 0);
    } else {
      NoMarkerKeepsState(true, marks, 0);
      NoMarkerKeepsState(false, marks, 0);
    }
    forall m: nat | Apart(marks) && IsLast(marks, m) ensures LastTaken(marks, 0) == Some(marks[m].value.begins) {
      LastMarkerWins(true, marks, 0, m);
      LastMarkerWins(false, marks, 0, m);
    }
  }

  lemma {:induction false} TakenIfAny(marks: Marks, i: nat)
    requires i <= |marks| && !NoneFrom(marks, i)
    ensures LastTaken(marks, i).Some?
    decreases |marks| - i
  {
    if marks[i].None? { TakenIfAny(marks, i + 1); }
  }

  // ----- holding a marker -----

  /** A line has a marker exactly when the text of one occurs in it. */
  lemma HasMarkerMeans(line: string)
    ensures HasMarker(MarksOf(KindOf, line)) <==> exists u, v, begins, tag :: IsLabel(tag) && line == u + MarkerText(begins, tag) + v
  {
    if HasMarker(MarksOf(KindOf, line)) {
      var i :| 0 <= i < |line| && MarksOf(KindOf, line)[i].Some?;
      var u, v, begins, tag := MarkerOccurs(line, i);
    }
    if u, v, begins, tag :| IsLabel(tag) && line == u + MarkerText(begins, tag) + v {
      TextIsMarker(u, begins, tag, v);
      assert MarksOf(KindOf, line)[|u|].Some?;
    }
  }

  lemma {:induction false} RunIsHeader(t: string, i: nat)
    requires i <= |t|
    ensures forall k :: i <= k < RunEnd(t, i) ==> IsHeaderChar(t[k])
    decreases |t| - i
  {
    if i < |t| && IsHeaderChar(t[i]) { RunIsHeader(t, i + 1); }
  }

  lemma MarkerOccurs(line: string, i: nat) returns (u: string, v: string, begins: bool, tag: string)
    requires i < |line| && MarkerAt(KindOf, line, i).Some?
    ensures IsLabel(tag) && line == u + MarkerText(begins, tag) + v
  {
    var start := i + DASHES;
    var e := RunEnd(line, start);
    RunIsHeader(line, start);
    var header := line[start..e];
    tag := HeaderOfKind(header);
    begins := KindOf(header).value;
    u, v := line[..i], line[e + DASHES..];
    DashesAreText(line, i);
    DashesAreText(line, e);
    CutInFive(line, i, start, e, e + DASHES);
  }

  lemma DashesAreText(line: string, i: nat)
    requires DashesAt(line, i)
    ensures line[i..i + DASHES] == "-----"
  {
  }

  lemma CutInFive(s: string, a: nat, b: nat, c: nat, d: nat)
    requires a <= b <= c <= d <= |s|
    ensures s == s[..a] + (s[a..b] + s[b..c] + s[c..d]) + s[d..]
  {
    assert s[a..d] == s[a..b] + s[b..c] + s[c..d];
  }

  lemma TextIsMarker(u: string, begins: bool, tag: string, v: string)
    requires IsLabel(tag)
    ensures MarkerAt(KindOf, u + MarkerText(begins, tag) + v, |u|) == Some(Marker(|u + MarkerText(begins, tag)|, begins))
  {
    var header := (if begins then "BEGIN " else "END ") + (tag + KEY);
    KindOfHeader(begins, tag);
    HeaderIsText(begins, tag);
    BarredIsMarker(u, BAR, header, v);
  }

  lemma BarredIsMarker(u: string, bar: string, header: string, v: string)
    requires IsBar(bar) && KindOf(header).Some? && forall k :: 0 <= k < |header| ==> IsHeaderChar(header[k])
    ensures MarkerAt(KindOf, u + (bar + header + bar) + v, |u|) == Some(Marker(|u + (bar + header + bar)|, KindOf(header).value))
  {
    EmbeddedMarker(KindOf, u, bar, header, v);
    assert u + (bar + header + bar) + v == u + (bar + (header + (bar + v)));
  }

  lemma HeaderIsText(begins: bool, tag: string)
    requires IsLabel(tag)
    ensures var header := (if begins then "BEGIN " else "END ") + (tag + KEY);
      forall k :: 0 <= k < |header| ==> IsHeaderChar(header[k])
  {
    var word := if begins then "BEGIN " else "END ";
    assert forall k :: 0 <= k < |word| ==> IsHeaderChar(word[k]);
    assert forall k :: 0 <= k < |KEY| ==> IsHeaderChar(KEY[k]);
  }
}
