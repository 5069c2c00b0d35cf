/**
 * The secret line redactor's state: whether a PEM private-key block is open. The last marker
 * seen wins, and over-long lines advance the state from overlapping fragments.
 */
module PemLines {
  import opened Text
  import opened LineRedactor

  const KEY := "PRIVATE KEY"

  predicate IsHeaderChar(c: char) {
    'A' <= c <= 'Z' || '0' <= c <= '9' || c == ' '
  }

  /** The first position from `i` on that cannot belong to a header. */
  function RunEnd(t: string, i: nat): (e: nat)
    requires i <= |t|
    ensures i <= e <= |t|
    decreases |t| - i
  {
    if i < |t| && IsHeaderChar(t[i]) then RunEnd(t, i + 1) else i
  }

  /** What follows `BEGIN ` or `END `: the key name, optionally after a label and a blank. */
  predicate IsKeyName(name: string) {
    && |name| >= |KEY| && name[|name| - |KEY|..] == KEY
    && var tag := name[..|name| - |KEY|];
       tag == "" || (|tag| >= 2 && tag[|tag| - 1] == ' ')
  }

  function KindOf(header: string): Option<bool> {
    if StartsWith(header, "BEGIN ") && IsKeyName(header[6..]) then Some(true)
    else if StartsWith(header, "END ") && IsKeyName(header[4..]) then Some(false)
    else None
  }

  /** How a header is read: a block opens, a block closes, or it is not a marker. */
  type Headers = string -> Option<bool>

  datatype Marker = Marker(end: nat, begins: bool)

  const DASHES := 5

  predicate DashesAt(t: string, i: nat) {
    i + DASHES <= |t| && forall k :: i <= k < i + DASHES ==> t[k] == '-'
  }

  /** The marker that starts at `i`, if any: five dashes, a header, five dashes. */
  function MarkerAt(h: Headers, t: string, i: nat): (m: Option<Marker>)
    ensures m.Some? ==> i + 2 * DASHES <= m.value.end <= |t|
  {
    if DashesAt(t, i) then MarkerWith(h, t, i + DASHES, RunEnd(t, i + DASHES)) else None
  }

  function MarkerWith(h: Headers, t: string, start: nat, e: nat): (m: Option<Marker>)
    requires start <= e <= |t|
    ensures m.Some? ==> m.value.end == e + DASHES <= |t|
  {
    if DashesAt(t, e) && h(t[start..e]).Some? then Some(Marker(e + DASHES, h(t[start..e]).value)) else None
  }

  /** Where the markers of a text start. */
  type Marks = m: seq<Option<Marker>> | Sound(m) witness []

  predicate Sound(marks: seq<Option<Marker>>) {
    forall i :: 0 <= i < |marks| && marks[i].Some? ==> i < marks[i].value.end <= |marks|
  }

  function MarksOf(h: Headers, t: string): (marks: Marks)
    ensures |marks| == |t|
    ensures forall i :: 0 <= i < |t| ==> marks[i] == MarkerAt(h, t, i)
  {
    var marks := seq(|t|, i requires 0 <= i < |t| => MarkerAt(h, t, i));
    assert forall i :: 0 <= i < |marks| && marks[i].Some? ==> i < marks[i].value.end <= |marks|;
    marks
  }

  /** The open/closed state after every marker from `i` on, taken left to right without overlap. */
  function Net(open: bool, marks: Marks, i: nat): bool
    requires i <= |marks|
    decreases |marks| - i
  {
    if i == |marks| then open
    else if marks[i].Some? then Net(marks[i].value.begins, marks, marks[i].value.end)
    else Net(open, marks, i + 1)
  }

  predicate HasMarker(marks: Marks) {
    exists i :: 0 <= i < |marks| && marks[i].Some?
  }

  function PemRules(likelySecret: string -> bool): Rules<bool> {
    Rules((open: bool, line: string) =>
            (Net(open, MarksOf(KindOf, line), 0),
             if open || HasMarker(MarksOf(KindOf, line)) || likelySecret(line) then WITHHELD else line),
          (open: bool, fragment: string) => Net(open, MarksOf(KindOf, fragment), 0))
  }

  // ----- when chunking cannot matter -----

  /** No marker starts inside another one. */
  ghost predicate Apart(marks: Marks) {
    forall i, j :: 0 <= i < j < |marks| && marks[i].Some? && marks[j].Some? ==> marks[i].value.end <= j
  }

  /** No marker is longer than the overlap window can bridge. */
  ghost predicate Short(marks: Marks) {
    forall i :: 0 <= i < |marks| && marks[i].Some? ==> marks[i].value.end - i <= OVERLAP + 1
  }

  ghost predicate NoneFrom(marks: Marks, from: nat) {
    forall k :: from <= k < |marks| ==> marks[k].None?
  }

  ghost predicate IsLast(marks: Marks, m: nat) {
    m < |marks| && marks[m].Some? && NoneFrom(marks, m + 1)
  }

  lemma {:induction false} LastExists(marks: Marks, from: nat)
    requires from <= |marks|
    ensures NoneFrom(marks, from) || exists m :: from <= m && IsLast(marks, m)
    decreases |marks| - from
  {
    if from < |marks| {
      LastExists(marks, from + 1);
      if NoneFrom(marks, from + 1) && marks[from].Some? {
        assert IsLast(marks, from);
      }
    }
  }

  lemma {:induction false} NoMarkerKeepsState(open: bool, marks: Marks, i: nat)
    requires i <= |marks| && NoneFrom(marks, i)
    ensures Net(open, marks, i) == open
    decreases |marks| - i
  {
    if i < |marks| { NoMarkerKeepsState(open, marks, i + 1); }
  }

  /** Markers apart: the left-to-right scan ends in the state of the last marker. */
  lemma {:induction false} LastMarkerWins(open: bool, marks: Marks, i: nat, m: nat)
    requires Apart(marks) && i <= m && IsLast(marks, m)
    ensures Net(open, marks, i) == marks[m].value.begins
    decreases |marks| - i
  {
    if marks[i].Some? {
      var next := marks[i].value;
      if i == m {
        NoMarkerKeepsState(next.begins, marks, next.end);
      } else {
        LastMarkerWins(next.begins, marks, next.end, m);
      }
    } else {
      LastMarkerWins(open, marks, i + 1, m);
    }
  }

  /** The markers that lie inside a window, in the window's coordinates. */
  function Clip(marks: Marks, a: nat, b: nat): (w: Marks)
    requires a <= b <= |marks|
    ensures |w| == b - a
    ensures forall k :: 0 <= k < b - a ==> w[k] == Clipped(marks[a + k], a, b)
  {
    var w := seq(b - a, k requires 0 <= k < b - a => Clipped(marks[a + k], a, b));
    assert Sound(w) by {
      forall k | 0 <= k < |w| && w[k].Some? ensures k < w[k].value.end <= |w| {
        assert w[k] == Clipped(marks[a + k], a, b);
      }
    }
    w
  }

  function Clipped(m: Option<Marker>, a: nat, b: nat): Option<Marker> {
    if m.Some? && a <= m.value.end <= b then Some(Marker(m.value.end - a, m.value.begins)) else None
  }

  lemma ClipKeepsApart(marks: Marks, a: nat, b: nat)
    requires a <= b <= |marks| && Apart(marks)
    ensures Apart(Clip(marks, a, b))
  {
    var w := Clip(marks, a, b);
    forall i, j | 0 <= i < j < |w| && w[i].Some? && w[j].Some? ensures w[i].value.end <= j {
      assert marks[a + i].Some? && marks[a + j].Some?;
    }
  }

  /** Markers apart and short: observing a prefix and then a window that overlaps it is observing the whole. */
  lemma WindowState(open: bool, marks: Marks, i: nat, j: nat)
    requires Apart(marks) && Short(marks) && OVERLAP < i <= j <= |marks|
    ensures Net(Net(open, Clip(marks, 0, i), 0), Clip(marks, i - OVERLAP, j), 0) == Net(open, Clip(marks, 0, j), 0)
  {
    LastExists(Clip(marks, 0, j), 0);
    if NoneFrom(Clip(marks, 0, j), 0) {
      NoMarkerKeepsState(open, Clip(marks, 0, j), 0);
      HeadEmpty(marks, i, j, 0);
      NoMarkerKeepsState(open, Clip(marks, 0, i), 0);
      WindowEmpty(marks, i, j, 0);
      NoMarkerKeepsState(open, Clip(marks, i - OVERLAP, j), 0);
    } else {
      var m: nat :| IsLast(Clip(marks, 0, j), m);
      ClipKeepsApart(marks, 0, j);
      LastMarkerWins(open, Clip(marks, 0, j), 0, m);
      if m >= i - OVERLAP {
        LaterMarker(Net(open, Clip(marks, 0, i), 0), marks, i, j, m);
      } else {
        EarlierMarker(open, marks, i, j, m);
      }
    }
  }

  /** A last marker that starts in the window is the window's last marker. */
  lemma LaterMarker(open: bool, marks: Marks, i: nat, j: nat, m: nat)
    requires Apart(marks) && OVERLAP < i <= j <= |marks|
    requires IsLast(Clip(marks, 0, j), m) && m >= i - OVERLAP
    ensures Net(open, Clip(marks, i - OVERLAP, j), 0) == Clip(marks, 0, j)[m].value.begins
  {
    ClipKeepsApart(marks, i - OVERLAP, j);
    LastInWindow(marks, i, j, m);
    LastMarkerWins(open, Clip(marks, i - OVERLAP, j), 0, m - (i - OVERLAP));
  }

  /** A last marker that starts before the window ends before the prefix does, so the prefix has seen it. */
  lemma EarlierMarker(open: bool, marks: Marks, i: nat, j: nat, m: nat)
    requires Apart(marks) && Short(marks) && OVERLAP < i <= j <= |marks|
    requires IsLast(Clip(marks, 0, j), m) && m < i - OVERLAP
    ensures Net(Net(open, Clip(marks, 0, i), 0), Clip(marks, i - OVERLAP, j), 0) == Clip(marks, 0, j)[m].value.begins
  {
    var head := Clip(marks, 0, i);
    assert Clip(marks, 0, j)[m] == Clipped(marks[m], 0, j);
    assert head[m] == Clipped(marks[m], 0, i);
    HeadEmpty(marks, i, j, m + 1);
    assert IsLast(head, m);
    ClipKeepsApart(marks, 0, i);
    LastMarkerWins(open, head, 0, m);
    WindowEmpty(marks, i, j, m + 1);
    NoMarkerKeepsState(Net(open, head, 0), Clip(marks, i - OVERLAP, j), 0);
  }

  lemma HeadEmpty(marks: Marks, i: nat, j: nat, from: nat)
    requires i <= j <= |marks| && NoneFrom(Clip(marks, 0, j), from)
    ensures NoneFrom(Clip(marks, 0, i), from)
  {
    forall k | from <= k < i ensures Clip(marks, 0, i)[k].None? {
      assert Clip(marks, 0, j)[k].None?;
      assert Clip(marks, 0, j)[k] == Clipped(marks[k], 0, j);
    }
  }

  lemma WindowEmpty(marks: Marks, i: nat, j: nat, from: nat)
    requires OVERLAP < i <= j <= |marks| && from <= i - OVERLAP
    requires NoneFrom(Clip(marks, 0, j), from)
    ensures NoneFrom(Clip(marks, i - OVERLAP, j), 0)
  {
    var a := i - OVERLAP;
    forall k | 0 <= k < j - a ensures Clip(marks, a, j)[k].None? {
      assert Clip(marks, 0, j)[a + k].None?;
    }
  }

  lemma LastInWindow(marks: Marks, i: nat, j: nat, m: nat)
    requires OVERLAP < i <= j <= |marks| && i - OVERLAP <= m
    requires IsLast(Clip(marks, 0, j), m)
    ensures IsLast(Clip(marks, i - OVERLAP, j), m - (i - OVERLAP))
    ensures Clip(marks, i - OVERLAP, j)[m - (i - OVERLAP)].value.begins == Clip(marks, 0, j)[m].value.begins
  {
    var a := i - OVERLAP;
    forall k | m - a < k < j - a ensures Clip(marks, a, j)[k].None? {
      assert Clip(marks, 0, j)[a + k].None?;
    }
  }

  // ----- the markers of a substring -----

  lemma {:induction false} RunEndInWindow(t: string, a: nat, b: nat, i: nat)
    requires a <= i <= b <= |t|
    ensures RunEnd(t[a..b], i - a) == (if RunEnd(t, i) < b then RunEnd(t, i) else b) - a
    decreases b - i
  {
    if i < b && IsHeaderChar(t[i]) {
      RunEndInWindow(t, a, b, i + 1);
    }
  }

  lemma SliceOfSlice(t: string, a: nat, b: nat, i: nat, j: nat)
    requires a <= i <= j <= b <= |t|
    ensures t[a..b][i - a..j - a] == t[i..j]
  {
    var w := t[a..b];
    forall k | 0 <= k < j - i ensures w[i - a..j - a][k] == t[i..j][k] {
      assert w[i - a + k] == t[i + k];
    }
  }

  lemma MarkerInWindow(h: Headers, t: string, a: nat, b: nat, i: nat)
    requires a <= i < b <= |t|
    ensures MarkerAt(h, t[a..b], i - a) == Clipped(MarkerAt(h, t, i), a, b)
  {
    if i + DASHES <= b {
      DashesInWindow(t, a, b, i);
      if DashesAt(t, i) {
        RunEndInWindow(t, a, b, i + DASHES);
        HeaderInWindow(h, t, a, b, i + DASHES, RunEnd(t, i + DASHES));
      }
    }
  }

  lemma HeaderInWindow(h: Headers, t: string, a: nat, b: nat, start: nat, e: nat)
    requires a <= start <= e <= |t| && start <= b <= |t|
    ensures MarkerWith(h, t[a..b], start - a, (if e < b then e else b) - a) == Clipped(MarkerWith(h, t, start, e), a, b)
  {
    if e + DASHES <= b {
      DashesInWindow(t, a, b, e);
      SliceOfSlice(t, a, b, start, e);
    }
  }

  lemma DashesInWindow(t: string, a: nat, b: nat, i: nat)
    requires a <= i && i + DASHES <= b <= |t|
    ensures DashesAt(t[a..b], i - a) <==> DashesAt(t, i)
  {
    var w := t[a..b];
    assert forall k :: i <= k < i + DASHES ==> w[k - a] == t[k];
    if DashesAt(w, i - a) {
      forall k | i <= k < i + DASHES ensures t[k] == '-' { assert w[k - a] == '-'; }
    }
  }

  /** The markers of a substring are the text's markers that lie inside it. */
  lemma MarksOfWindow(h: Headers, t: string, a: nat, b: nat)
    requires a <= b <= |t|
    ensures MarksOf(h, t[a..b]) == Clip(MarksOf(h, t), a, b)
  {
    var w, clip := MarksOf(h, t[a..b]), Clip(MarksOf(h, t), a, b);
    forall k | 0 <= k < b - a ensures w[k] == clip[k] {
      MarkInWindow(h, t, a, b, k);
    }
  }

  lemma MarkInWindow(h: Headers, t: string, a: nat, b: nat, k: nat)
    requires a <= b <= |t| && k < b - a
    ensures MarksOf(h, t[a..b])[k] == Clip(MarksOf(h, t), a, b)[k]
  {
    MarkerInWindow(h, t, a, b, a + k);
    ClipAt(h, t, a, b, k);
  }

  lemma ClipAt(h: Headers, t: string, a: nat, b: nat, k: nat)
    requires a <= b <= |t| && k < b - a
    ensures Clip(MarksOf(h, t), a, b)[k] == Clipped(MarkerAt(h, t, a + k), a, b)
  {
    assert MarksOf(h, t)[a + k] == MarkerAt(h, t, a + k);
  }

  lemma NetOfWindow(h: Headers, open: bool, line: string, a: nat, b: nat)
    requires a <= b <= |line|
    ensures Net(open, MarksOf(h, line[a..b]), 0) == Net(open, Clip(MarksOf(h, line), a, b), 0)
  {
    MarksOfWindow(h, line, a, b);
  }

  lemma LineState(h: Headers, open: bool, line: string, i: nat, j: nat)
    requires Apart(MarksOf(h, line)) && Short(MarksOf(h, line)) && OVERLAP < i <= j <= |line|
    ensures Net(Net(open, MarksOf(h, line[0..i]), 0), MarksOf(h, line[i - OVERLAP..j]), 0) == Net(open, MarksOf(h, line[0..j]), 0)
  {
    NetOfWindow(h, open, line, 0, i);
    NetOfWindow(h, open, line, 0, j);
    NetOfWindow(h, Net(open, MarksOf(h, line[0..i]), 0), line, i - OVERLAP, j);
    WindowState(open, MarksOf(h, line), i, j);
  }

  lemma TailThenPiece(line: string, i: nat, j: nat)
    requires OVERLAP < i <= j <= |line|
    ensures Last(line[..i]) + line[i..j] == line[i - OVERLAP..j]
  {
    assert Last(line[..i]) == line[i - OVERLAP..i];
  }

  /** A line within the cap is never observed in fragments; an over-long one should have its markers apart
      and short. */
  ghost predicate Harmless(line: string) {
    |line| > MAX_LINE ==> Apart(MarksOf(KindOf, line)) && Short(MarksOf(KindOf, line))
  }

  /** Then the overlapping fragments leave the same state as the whole line. */
  lemma ApartAndShortIsFaithful(likelySecret: string -> bool, line: string)
    requires Harmless(line)
    ensures Faithful(PemRules(likelySecret), line)
  {
    var r := PemRules(likelySecret);
    forall s, i, j | MAX_LINE < i <= j <= |line|
      ensures r.observe(r.observe(s, line[..i]), Last(line[..i]) + line[i..j]) == r.observe(s, line[..j])
    {
      assert line[0..i] == line[..i] && line[0..j] == line[..j];
      TailThenPiece(line, i, j);
      LineState(KindOf, s, line, i, j);
    }
  }

  /** The log of a command does not depend on how its output was cut into chunks, as long as no
      over-long line has markers that share dashes or exceed 257 characters. */
  lemma LogIsChunkIndependent(likelySecret: string -> bool, open: bool, chunks: seq<string>)
    requires forall line :: line in Split(Flatten(chunks), '\n') ==> Harmless(line)
    ensures Streamed(PemRules(likelySecret), open, chunks) ==
            Redacted(PemRules(likelySecret), open, Flatten(chunks))
  {
    var lines := Split(Flatten(chunks), '\n');
    forall i | 0 <= i < |lines| ensures Faithful(PemRules(likelySecret), lines[i]) {
      assert lines[i] in lines;
      ApartAndShortIsFaithful(likelySecret, lines[i]);
    }
    StreamMatchesText(PemRules(likelySecret), open, chunks);
  }

  // ----- exactly when a line is safe to cut -----

  /** The kind of the last marker a left-to-right scan takes from `i` on. */
  function LastTaken(marks: Marks, i: nat): Option<bool>
    requires i <= |marks|
    decreases |marks| - i
  {
    if i == |marks| then None
    else if marks[i].Some? then
      var rest := LastTaken(marks, marks[i].value.end);
      if rest.Some? then rest else Some(marks[i].value.begins)
    else LastTaken(marks, i + 1)
  }

  lemma {:induction false} NetIsLastTaken(open: bool, marks: Marks, i: nat)
    requires i <= |marks|
    ensures Net(open, marks, i) == if LastTaken(marks, i).Some? then LastTaken(marks, i).value else open
    decreases |marks| - i
  {
    if i < |marks| {
      if marks[i].Some? {
        NetIsLastTaken(marks[i].value.begins, marks, marks[i].value.end);
      } else {
        NetIsLastTaken(open, marks, i + 1);
      }
    }
  }

  /** What the window shows, by the last marker taken: it ends on the same kind as the whole, or shows
      nothing while the whole has not changed. */
  predicate Agree(before: Marks, window: Marks, after: Marks) {
    if LastTaken(window, 0).Some? then LastTaken(after, 0) == LastTaken(window, 0)
    else LastTaken(after, 0) == LastTaken(before, 0)
  }

  ghost predicate CutAgrees(h: Headers, line: string, i: nat, j: nat)
    requires OVERLAP <= i <= j <= |line|
  {
    Agree(MarksOf(h, line[..i]), MarksOf(h, line[i - OVERLAP..j]), MarksOf(h, line[..j]))
  }

  /** A line may be cut anywhere past the cap if and only if, at every such cut, scanning the overlap window
      ends on the marker kind that scanning from the start of the line ends on. */
  lemma FaithfulByLastMarkers(likelySecret: string -> bool, line: string)
    ensures Faithful(PemRules(likelySecret), line) <==>
      forall i: nat, j: nat :: MAX_LINE < i <= j <= |line| ==> CutAgrees(KindOf, line, i, j)
  {
    var r := PemRules(likelySecret);
    if Faithful(r, line) {
      forall i: nat, j: nat | MAX_LINE < i <= j <= |line| ensures CutAgrees(KindOf, line, i, j) {
        forall open: bool ensures SameAfterCut(KindOf, line, open, i, j) { FaithfulAt(r, line, open, i, j, likelySecret); }
        CutByStates(KindOf, line, i, j);
      }
    }
    if forall i: nat, j: nat :: MAX_LINE < i <= j <= |line| ==> CutAgrees(KindOf, line, i, j) {
      forall s, i, j | MAX_LINE < i <= j <= |line|
        ensures r.observe(r.observe(s, line[..i]), Last(line[..i]) + line[i..j]) == r.observe(s, line[..j])
      {
        assert CutAgrees(KindOf, line, i, j);
        CutByStates(KindOf, line, i, j);
        assert SameAfterCut(KindOf, line, s, i, j);
        TailThenPiece(line, i, j);
      }
    }
  }

  predicate SameState(open: bool, before: Marks, window: Marks, after: Marks) {
    Net(Net(open, before, 0), window, 0) == Net(open, after, 0)
  }

  ghost predicate SameAfterCut(h: Headers, line: string, open: bool, i: nat, j: nat)
    requires OVERLAP <= i <= j <= |line|
  {
    SameState(open, MarksOf(h, line[..i]), MarksOf(h, line[i - OVERLAP..j]), MarksOf(h, line[..j]))
  }

  lemma FaithfulAt(r: Rules<bool>, line: string, open: bool, i: nat, j: nat, likelySecret: string -> bool)
    requires r == PemRules(likelySecret) && Faithful(r, line) && MAX_LINE < i <= j <= |line|
    ensures SameAfterCut(KindOf, line, open, i, j)
  {
    TailThenPiece(line, i, j);
    assert r.observe(r.observe(open, line[..i]), Last(line[..i]) + line[i..j]) == r.observe(open, line[..j]);
  }

  lemma CutByStates(h: Headers, line: string, i: nat, j: nat)
    requires OVERLAP <= i <= j <= |line|
    ensures CutAgrees(h, line, i, j) <==> SameAfterCut(h, line, true, i, j) && SameAfterCut(h, line, false, i, j)
  {
    StatesDecide(MarksOf(h, line[..i]), MarksOf(h, line[i - OVERLAP..j]), MarksOf(h, line[..j]));
  }

  /** Agreement for an open and for a closed block is agreement on the markers. */
  lemma StatesDecide(p: Marks, w: Marks, q: Marks)
    ensures Agree(p, w, q) <==> SameState(true, p, w, q) && SameState(false, p, w, q)
  {
    NetIsLastTaken(true, p, 0);
    NetIsLastTaken(false, p, 0);
    NetIsLastTaken(Net(true, p, 0), w, 0);
    NetIsLastTaken(Net(false, p, 0), w, 0);
    NetIsLastTaken(true, q, 0);
    NetIsLastTaken(false, q, 0);
  }

  // ----- when it can -----

  /** Two markers that share their dashes: a left-to-right scan sees only the first one. */
  const SHARED := BAR + BEGIN + BAR + END + BAR
  const BAR := "-----"
  const BEGIN := "BEGIN PRIVATE KEY"
  const END := "END PRIVATE KEY"

  function Filler(n: nat): (s: string)
    ensures |s| == n && forall k :: 0 <= k < n ==> s[k] == 'x'
  {
    seq(n, _ => 'x')
  }

  lemma {:induction false} RunEndIs(t: string, i: nat, e: nat)
    requires i <= e < |t| && !IsHeaderChar(t[e])
    requires forall k :: i <= k < e ==> IsHeaderChar(t[k])
    ensures RunEnd(t, i) == e
    decreases e - i
  {
    if i < e { RunEndIs(t, i + 1, e); }
  }

  lemma {:induction false} SkipTo(open: bool, marks: Marks, i: nat, k: nat)
    requires i <= k <= |marks| && forall n :: i <= n < k ==> marks[n].None?
    ensures Net(open, marks, i) == Net(open, marks, k)
    decreases k - i
  {
    if i < k { SkipTo(open, marks, i + 1, k); }
  }

  lemma OnlyMarker(open: bool, marks: Marks, i: nat)
    requires i < |marks| && marks[i].Some?
    requires forall k :: 0 <= k < i ==> marks[k].None?
    requires NoneFrom(marks, marks[i].value.end)
    ensures Net(open, marks, 0) == marks[i].value.begins
  {
    SkipTo(open, marks, 0, i);
    NoMarkerKeepsState(marks[i].value.begins, marks, marks[i].value.end);
  }

  lemma EmptyHeader(t: string, i: nat)
    requires i + DASHES < |t| && !IsHeaderChar(t[i + DASHES])
    ensures MarkerAt(KindOf, t, i).None?
  {
    assert t[i + DASHES..i + DASHES] == "";
  }

  lemma MarkerIs(h: Headers, t: string, i: nat, e: nat, header: string)
    requires DashesAt(t, i) && i + DASHES <= e && DashesAt(t, e)
    requires t[i + DASHES..e] == header && h(header).Some?
    requires forall k :: i + DASHES <= k < e ==> IsHeaderChar(t[k])
    ensures MarkerAt(h, t, i) == Some(Marker(e + DASHES, h(header).value))
  {
    RunEndIs(t, i + DASHES, e);
  }

  lemma HeaderKinds()
    ensures KindOf(BEGIN) == Some(true) && KindOf(END) == Some(false)
  {
    assert BEGIN[6..] == KEY && BEGIN[..6] == "BEGIN ";
    assert END[4..] == KEY && END[..4] == "END ";
  }

  lemma EmbeddedSlice(u: string, v: string, w: string, i: nat, j: nat)
    requires i <= j <= |v|
    ensures (u + v + w)[|u| + i..|u| + j] == v[i..j]
  { }

  lemma HeaderChars()
    ensures forall k :: 0 <= k < |BEGIN| ==> IsHeaderChar(BEGIN[k])
    ensures forall k :: 0 <= k < |END| ==> IsHeaderChar(END[k])
  { }

  lemma BarredShape(bar: string, a: string, b: string, s: string)
    requires IsBar(bar) && s == bar + a + bar + b + bar
    requires (forall k :: 0 <= k < |a| ==> IsHeaderChar(a[k])) && (forall k :: 0 <= k < |b| ==> IsHeaderChar(b[k]))
    ensures |s| == 15 + |a| + |b| && s[5..5 + |a|] == a && s[10 + |a|..10 + |a| + |b|] == b
    ensures DashesAt(s, 0) && DashesAt(s, 5 + |a|) && DashesAt(s, 10 + |a| + |b|)
    ensures forall k :: 5 <= k < 5 + |a| || 10 + |a| <= k < 10 + |a| + |b| ==> IsHeaderChar(s[k])
  {
    var m, n := 5 + |a|, 10 + |a|;
    forall k | 5 <= k < m || n <= k < n + |b| ensures IsHeaderChar(s[k]) {
      if k < m { assert s[k] == a[k - 5]; } else { assert s[k] == b[k - n]; }
    }
    BarAt(s, 0, bar);
    BarAt(s, m, bar);
    BarAt(s, n + |b|, bar);
  }

  lemma BarAt(s: string, i: nat, bar: string)
    requires IsBar(bar) && i + DASHES <= |s| && s[i..i + DASHES] == bar
    ensures DashesAt(s, i)
  {
    forall k | i <= k < i + DASHES ensures s[k] == '-' { assert s[i..i + DASHES][k - i] == s[k]; }
  }

  lemma SharedShape()
    ensures |SHARED| == 47
    ensures SHARED[5..22] == BEGIN && SHARED[27..42] == END
    ensures DashesAt(SHARED, 0) && DashesAt(SHARED, 22) && DashesAt(SHARED, 42)
    ensures forall k :: 5 <= k < 22 || 27 <= k < 42 ==> IsHeaderChar(SHARED[k])
  {
    HeaderChars();
    BarredShape(BAR, BEGIN, END, SHARED);
  }

  predicate IsBar(bar: string) {
    |bar| == DASHES && forall k :: 0 <= k < DASHES ==> bar[k] == '-'
  }

  /** A header between two bars is a marker wherever it stands. */
  lemma EmbeddedMarker(h: Headers, u: string, bar: string, header: string, rest: string)
    requires IsBar(bar) && h(header).Some? && forall k :: 0 <= k < |header| ==> IsHeaderChar(header[k])
    ensures MarkerAt(h, u + (bar + (header + (bar + rest))), |u|) ==
      Some(Marker(|u| + DASHES + |header| + DASHES, h(header).value))
  {
    var t, start := u + (bar + (header + (bar + rest))), |u| + DASHES;
    var e := start + |header|;
    assert forall k :: 0 <= k < DASHES ==> t[|u| + k] == bar[k] && t[e + k] == bar[k];
    assert forall k :: 0 <= k < |header| ==> t[start + k] == header[k];
    forall k | |u| <= k < |u| + DASHES ensures t[k] == '-' { assert t[|u| + (k - |u|)] == bar[k - |u|]; }
    forall k | e <= k < e + DASHES ensures t[k] == '-' { assert t[e + (k - e)] == bar[k - e]; }
    forall k | start <= k < e ensures IsHeaderChar(t[k]) { assert t[start + (k - start)] == header[k - start]; }
    assert t[start..e] == header;
    MarkerIs(h, t, |u|, e, header);
  }

  lemma SharedStarts(t: string, pre: nat, post: nat)
    requires t == Filler(pre) + SHARED + Filler(post)
    ensures MarkerAt(KindOf, t, pre) == Some(Marker(pre + 27, true))
  {
    HeaderKinds();
    HeaderChars();
    EmbeddedMarker(KindOf, Filler(pre), BAR, BEGIN, END + BAR + Filler(post));
    Regroup(Filler(pre), BAR, BEGIN, END, Filler(post));
  }

  lemma Regroup(u: string, bar: string, first: string, second: string, v: string)
    ensures u + (bar + first + bar + second + bar) + v == u + (bar + (first + (bar + (second + bar + v))))
  {
    Assoc(u, bar + first + bar + second + bar, v);
    assert bar + first + bar + second + bar + v == bar + (first + (bar + (second + bar + v)));
  }

  lemma SharedOpens(open: bool, t: string, pre: nat, post: nat)
    requires post > 0 && t == Filler(pre) + SHARED + Filler(post)
    ensures Net(open, MarksOf(KindOf, t), 0)
  {
    SharedStarts(t, pre, post);
    NothingAfterShared(t, pre, post);
    NothingBeforeShared(t, pre, post);
    OnlyMarker(open, MarksOf(KindOf, t), pre);
  }

  lemma NothingBeforeShared(t: string, pre: nat, post: nat)
    requires t == Filler(pre) + SHARED + Filler(post)
    ensures forall k :: 0 <= k < pre ==> MarksOf(KindOf, t)[k].None?
  {
    forall k | 0 <= k < pre ensures MarksOf(KindOf, t)[k].None? { assert t[k] == 'x'; }
  }

  lemma NothingAfterShared(t: string, pre: nat, post: nat)
    requires post > 0 && t == Filler(pre) + SHARED + Filler(post)
    ensures NoneFrom(MarksOf(KindOf, t), pre + 27)
  {
    SharedShape();
    forall k | pre + 27 <= k < |t| ensures MarksOf(KindOf, t)[k].None? {
      if k < pre + 42 { assert t[k] == SHARED[k - pre]; }
      else if k == pre + 42 { EmptyHeader(t, k); }
      else { assert k + 4 >= |t| || t[k + 4] == 'x'; }
    }
  }

  lemma CutSharedCloses(open: bool, t: string, post: nat)
    requires post > 0 && t == SHARED[1..] + Filler(post)
    ensures !Net(open, MarksOf(KindOf, t), 0)
  {
    SharedShape();
    HeaderKinds();
    EmbeddedSlice("", SHARED[1..], Filler(post), 26, 41);
    assert "" + SHARED[1..] + Filler(post) == t;
    assert SHARED[1..][26..41] == SHARED[27..42];
    assert forall k {:trigger t[k]} :: 0 <= k < 46 ==> t[k] == SHARED[k + 1];
    MarkerIs(KindOf, t, 21, 41, END);
    var marks := MarksOf(KindOf, t);
    forall k | 0 <= k < 21 ensures marks[k].None? {
      assert IsHeaderChar(t[4]);
      if k > 4 { assert IsHeaderChar(t[k]); }
    }
    forall k | 46 <= k < |t| ensures marks[k].None? { assert t[k] == 'x'; }
    OnlyMarker(open, marks, 21);
  }

  /** The real redactor is not immune to chunking. An over-long line whose first 1 MiB is filler and which
      then holds two markers sharing their dashes leaves the block open when it arrives with its newline,
      and closed when the newline comes in a chunk of its own: the line after it is withheld from the one
      log and printed in the other. */
  lemma ChunkingCanMatter(likelySecret: string -> bool, next: string)
    requires '\n' !in next && |next| <= MAX_LINE && !likelySecret(next) && !HasMarker(MarksOf(KindOf, next))
    ensures
      var line := Filler(MAX_LINE) + SHARED + Filler(210);
      && Streamed(PemRules(likelySecret), false, [line + "\n", next + "\n"]).1 == TwoLines(WITHHELD, WITHHELD)
      && Streamed(PemRules(likelySecret), false, [line, "\n", next + "\n"]).1 == TwoLines(WITHHELD, next)
  {
    var line := Filler(MAX_LINE) + SHARED + Filler(210);
    SharedShape();
    SharedOpens(false, line, MAX_LINE, 210);
    SharedTail(line);
    CutSharedCloses(true, Last(line), 210);
    assert '\n' !in SHARED;
    LineThenNext(PemRules(likelySecret), line, next);
  }

  function TwoLines(a: string, b: string): string {
    a + "\n" + b + "\n"
  }

  lemma EmptyOutput(text: string)
    ensures "" + text + "\n" == text + "\n"
  {
  }

  lemma SharedTail(line: string)
    requires line == Filler(MAX_LINE) + SHARED + Filler(210)
    ensures |line| > MAX_LINE && Last(line) == SHARED[1..] + Filler(210)
  {
    SharedShape();
    assert line == (Filler(MAX_LINE) + SHARED[..1]) + (SHARED[1..] + Filler(210));
  }

  /** An over-long line in one chunk is observed once; cut before its newline, its tail is observed again. */
  lemma LineThenNewline(r: Rules<bool>, line: string)
    requires |line| > MAX_LINE && '\n' !in line
    ensures Feed(r, Fresh(false), line + "\n") == Printed(r.observe(false, line))
    ensures Feed(r, Feed(r, Fresh(false), line), "\n") == Printed(r.observe(r.observe(false, line), Last(line)))
  {
    assert "" + line == line && Last(line) + "" == Last(line);
    EmptyOutput(WITHHELD);
    FeedTerminated(r, Fresh(false), line);
    var st := Feed(r, Fresh(false), line);
    assert st == Extend(r, Fresh(false), line);
    FeedTerminated(r, st, "");
    assert "" + "\n" == "\n";
  }

  /** The stream after an over-long first line. */
  function Printed(state: bool): Stream<bool> {
    Stream(state, "", false, "", WITHHELD + "\n")
  }

  lemma LineThenNext(r: Rules<bool>, line: string, next: string)
    requires |line| > MAX_LINE && '\n' !in line && '\n' !in next && |next| <= MAX_LINE
    ensures Streamed(r, false, [line + "\n", next + "\n"]).1 == TwoLines(WITHHELD, r.redact(r.observe(false, line), next).1)
    ensures Streamed(r, false, [line, "\n", next + "\n"]).1 ==
      TwoLines(WITHHELD, r.redact(r.observe(r.observe(false, line), Last(line)), next).1)
  {
    LineThenNewline(r, line);
    NextLine(r, r.observe(false, line), next);
    NextLine(r, r.observe(r.observe(false, line), Last(line)), next);
    FeedTwo(r, Fresh(false), line + "\n", next + "\n");
    FeedThree(r, Fresh(false), line, "\n", next + "\n");
  }

  lemma NextLine(r: Rules<bool>, state: bool, next: string)
    requires '\n' !in next && |next| <= MAX_LINE
    ensures Flush(r, Feed(r, Printed(state), next + "\n")).output == TwoLines(WITHHELD, r.redact(state, next).1)
  {
    FeedTerminated(r, Printed(state), next);
    assert "" + next == next;
  }

  lemma FeedTwo(r: Rules<bool>, st: Stream<bool>, a: string, b: string)
    ensures FeedAll(r, st, [a, b]) == Feed(r, Feed(r, st, a), b)
  {
    assert [a, b][1..] == [b] && [b][1..] == [];
    assert FeedAll(r, Feed(r, st, a), [b]) == Feed(r, Feed(r, st, a), b);
  }

  lemma FeedThree(r: Rules<bool>, st: Stream<bool>, a: string, b: string, c: string)
    ensures FeedAll(r, st, [a, b, c]) == Feed(r, Feed(r, Feed(r, st, a), b), c)
  {
    assert [a, b, c][1..] == [b, c];
    FeedTwo(r, Feed(r, st, a), b, c);
  }

  lemma FeedTerminated(r: Rules<bool>, st: Stream<bool>, piece: string)
    requires '\n' !in piece
    ensures Feed(r, st, piece + "\n") == EndLine(r, st, piece)
  {
    EndOfSecond(piece);
    assert (piece + "\n")[..|piece|] == piece && (piece + "\n")[|piece| + 1..] == "";
  }
}
