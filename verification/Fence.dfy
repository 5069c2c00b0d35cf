/**
 * Fence neutralising: reference text placed between `<tag>` and `</tag>` must not be able to
 * close the fence. One left-to-right pass strips the brackets of every (possibly repeated)
 * opening or closing tag, whatever its case.
 */
module Fence {
  import opened Text

  const KNOWLEDGE := "knowledge"
  const CONTEXT_PACK := "context-pack"
  const OPERATIONAL := "operational-" + KNOWLEDGE

  /** A tag name is not empty and holds none of the characters the fence syntax uses. */
  predicate IsTagName(tag: string) {
    tag != "" && '<' !in tag && '>' !in tag && '/' !in tag && '\n' !in tag
  }

  lemma FencesHaveTagNames()
    ensures IsTagName(KNOWLEDGE) && IsTagName(CONTEXT_PACK) && IsTagName(OPERATIONAL)
  {
    PrefixIsTagName();
    NameFromParts("operational-", KNOWLEDGE);
  }

  lemma PrefixIsTagName()
    ensures IsTagName("operational-")
  {
  }

  lemma NameFromParts(a: string, b: string)
    requires IsTagName(a) && IsTagName(b)
    ensures IsTagName(a + b)
  {
  }

  function Lower(c: char): char {
    if 'A' <= c <= 'Z' then (c as int + 32) as char else c
  }

  predicate SameIgnoringCase(a: string, b: string) {
    |a| == |b| && forall i :: 0 <= i < |a| ==> Lower(a[i]) == Lower(b[i])
  }

  /** The text starts with the tag name, in any case. */
  predicate NameAt(tag: string, s: string) {
    |tag| <= |s| && SameIgnoringCase(s[..|tag|], tag)
  }

  function Run(c: char, s: string): (n: nat)
    ensures n <= |s|
    ensures forall i :: 0 <= i < n ==> s[i] == c
    ensures n < |s| ==> s[n] != c
  {
    if s != "" && s[0] == c then 1 + Run(c, s[1..]) else 0
  }

  /** How many characters `\/?tag` takes at the start of `s`; 0 when it does not match. */
  function NameLength(tag: string, s: string): (n: nat)
    requires IsTagName(tag)
    ensures n <= |s| && (n > 0 ==> |tag| <= n <= |tag| + 1)
  {
    if NameAt(tag, s) then |tag|
    else if s != "" && s[0] == '/' && NameAt(tag, s[1..]) then |tag| + 1
    else 0
  }

  datatype Match = NoMatch | Match(opens: nat, name: nat, closes: nat)

  /** Where a global regular expression matches: at the first character of what is left, or not there. */
  type Matcher = string -> Match

  /** The match of `<+\/?tag>+` that starts at the first character. */
  function MatchAt(tag: string, s: string): (m: Match)
    requires IsTagName(tag)
    ensures m.Match? ==>
      && m.opens >= 1 && m.name >= |tag| && m.closes >= 1
      && m.opens + m.name + m.closes <= |s|
  {
    var opens := Run('<', s);
    if opens == 0 then NoMatch
    else
      var name := NameLength(tag, s[opens..]);
      if name == 0 then NoMatch
      else
        var closes := Run('>', s[opens + name..]);
        if closes == 0 then NoMatch else Match(opens, name, closes)
  }

  function Length(m: Match): nat
    requires m.Match?
  {
    m.opens + m.name + m.closes
  }

  predicate Applies(hit: Match, s: string) {
    hit.Match? && hit.opens >= 1 && Length(hit) <= |s|
  }

  /** What one step emits: the name of a match without its brackets, or one character. */
  function Emitted(hit: Match, s: string): string
    requires s != ""
  {
    if Applies(hit, s) then s[hit.opens..hit.opens + hit.name] else [s[0]]
  }

  /** What one step leaves to do. */
  function Rest(hit: Match, s: string): (r: string)
    requires s != ""
    ensures |r| < |s|
  {
    if Applies(hit, s) then s[Length(hit)..] else s[1..]
  }

  /** One left-to-right pass of `replace`: every match keeps its name and loses its brackets. */
  function Pass(m: Matcher, s: string): (r: string)
    decreases |s|
  {
    if s == "" then "" else Emitted(m(s), s) + Pass(m, Rest(m(s), s))
  }

  function Tags(tag: string): Matcher
    requires IsTagName(tag)
  {
    s => MatchAt(tag, s)
  }

  function Neutralise(tag: string, s: string): string
    requires IsTagName(tag)
  {
    Pass(Tags(tag), s)
  }

  /** A single `<tag>` or `</tag>` at the start of `s`. */
  predicate TagStarts(tag: string, s: string)
    requires IsTagName(tag)
  {
    && |s| >= 1 && s[0] == '<'
    && var n := NameLength(tag, s[1..]);
       n > 0 && 1 + n < |s| && s[1 + n] == '>'
  }

  predicate HasTag(tag: string, s: string)
    requires IsTagName(tag)
  {
    exists i :: 0 <= i < |s| && TagStarts(tag, s[i..])
  }

  // ----- what the matcher guarantees -----

  /** The name part of a match holds no bracket. */
  lemma NameHasNoBracket(tag: string, s: string)
    requires IsTagName(tag) && NameLength(tag, s) > 0
    ensures forall i :: 0 <= i < NameLength(tag, s) ==> s[i] != '<' && s[i] != '>'
  {
    if NameAt(tag, s) {
      forall i | 0 <= i < |tag| ensures s[i] != '<' && s[i] != '>' {
        assert Lower(s[..|tag|][i]) == Lower(tag[i]);
        assert tag[i] in tag;
      }
    } else {
      var rest := s[1..];
      forall i | 0 <= i < |tag| ensures rest[i] != '<' && rest[i] != '>' {
        assert Lower(rest[..|tag|][i]) == Lower(tag[i]);
        assert tag[i] in tag;
      }
      forall i | 0 <= i < |tag| + 1 ensures s[i] != '<' && s[i] != '>' {
        if i > 0 { assert s[i] == rest[i - 1]; }
      }
    }
  }

  /** A tag at the start is a match. */
  lemma TagMatches(tag: string, s: string)
    requires IsTagName(tag) && TagStarts(tag, s)
    ensures MatchAt(tag, s).Match?
  {
    var n := NameLength(tag, s[1..]);
    NameHasNoBracket(tag, s[1..]);
    assert s[1] == s[1..][0];
    assert Run('<', s) == 1;
    assert s[1 + n..][0] == '>';
  }

  /** A match contains a tag: its innermost brackets around the name. */
  lemma MatchHasTag(tag: string, s: string)
    requires IsTagName(tag) && MatchAt(tag, s).Match?
    ensures HasTag(tag, s)
  {
    var m := MatchAt(tag, s);
    var inner := s[m.opens - 1..];
    assert inner[1..] == s[m.opens..];
    assert inner[1 + m.name] == s[m.opens + m.name..][0];
    assert TagStarts(tag, inner);
  }

  /** One more bracket in front of a match is still a match. */
  lemma WiderMatch(tag: string, s: string)
    requires IsTagName(tag) && MatchAt(tag, s).Match?
    ensures MatchAt(tag, ['<'] + s).Match?
  {
    var wide := ['<'] + s;
    var m := MatchAt(tag, s);
    assert wide[1..] == s;
    assert Run('<', wide) == m.opens + 1;
    assert wide[m.opens + 1..] == s[m.opens..];
    assert wide[m.opens + 1 + m.name..] == s[m.opens + m.name..];
  }

  /** Brackets outside, none inside the name, and no closing bracket left behind. */
  ghost predicate Shaped(tag: string, s: string, m: Match)
    requires m.Match?
  {
    var end := m.opens + m.name + m.closes;
    && m.opens >= 1 && m.name >= |tag| && end <= |s|
    && (forall i :: 0 <= i < m.opens ==> s[i] == '<')
    && (forall i :: m.opens <= i < m.opens + m.name ==> s[i] != '<' && s[i] != '>')
    && (forall i :: m.opens + m.name <= i < end ==> s[i] == '>')
    && (end < |s| ==> s[end] != '>')
  }

  ghost predicate AllShaped(tag: string, m: Matcher) {
    forall s {:trigger Shaped(tag, s, m(s))} :: m(s).Match? ==> Shaped(tag, s, m(s))
  }

  /** A tag is a match, and a match stays one behind a further bracket. */
  ghost predicate Complete(tag: string, m: Matcher)
    requires IsTagName(tag)
  {
    && (forall s {:trigger m(['<'] + s)} :: m(s).Match? ==> m(['<'] + s).Match?)
    && (forall s :: TagStarts(tag, s) ==> m(s).Match?)
  }

  lemma MatchIsShaped(tag: string, s: string)
    requires IsTagName(tag) && MatchAt(tag, s).Match?
    ensures Shaped(tag, s, MatchAt(tag, s))
  {
    var m := MatchAt(tag, s);
    NameHasNoBracket(tag, s[m.opens..]);
    forall i | m.opens <= i < m.opens + m.name ensures s[i] != '<' && s[i] != '>' {
      assert s[i] == s[m.opens..][i - m.opens];
    }
    var tail := s[m.opens + m.name..];
    forall i | m.opens + m.name <= i < m.opens + m.name + m.closes ensures s[i] == '>' {
      assert s[i] == tail[i - m.opens - m.name];
    }
    if m.closes < |tail| { assert tail[m.closes] == s[m.opens + m.name + m.closes]; }
  }

  lemma TagsFindsTags(tag: string)
    requires IsTagName(tag)
    ensures AllShaped(tag, Tags(tag)) && Complete(tag, Tags(tag))
  {
    var m := Tags(tag);
    forall s | m(s).Match? ensures Shaped(tag, s, m(s)) && m(['<'] + s).Match? {
      MatchIsShaped(tag, s);
      WiderMatch(tag, s);
    }
    forall s | TagStarts(tag, s) ensures m(s).Match? { TagMatches(tag, s); }
  }

  // ----- nothing is left -----

  /** How many leading characters pass through unchanged before the first match. */
  function Literal(m: Matcher, s: string): (k: nat)
    ensures k <= |s|
    ensures k < |s| ==> m(s[k..]).Match?
  {
    if s == "" || m(s).Match? then 0 else 1 + Literal(m, s[1..])
  }

  lemma {:induction false} LiteralPrefix(m: Matcher, s: string)
    ensures Pass(m, s) == s[..Literal(m, s)] + Pass(m, s[Literal(m, s)..])
    decreases |s|
  {
    if s != "" && m(s).NoMatch? {
      var k := Literal(m, s[1..]);
      LiteralPrefix(m, s[1..]);
      assert s[..k + 1] == [s[0]] + s[1..][..k];
      assert s[1..][k..] == s[k + 1..];
    }
  }

  /** After a match nothing the pass emits starts with a closing bracket. */
  lemma NoCloseAfterMatch(tag: string, m: Matcher, s: string)
    requires IsTagName(tag) && AllShaped(tag, m) && (s == "" || s[0] != '>')
    ensures Pass(m, s) == "" || Pass(m, s)[0] != '>'
  {
    if s != "" && m(s).Match? && |Pass(m, s)| > 0 {
      NoBracketInName(tag, m, s);
      assert Pass(m, s)[0] == Emitted(m(s), s)[0];
    }
  }

  lemma CloseCannotStraddle(head: string, name: string, tail: string, n: nat)
    requires '>' !in name && (tail == "" || tail[0] != '>')
    requires |head| <= n <= |head| + |name| && n < |head + (name + tail)|
    ensures (head + (name + tail))[n] != '>'
  {
    var k := n - |head|;
    if k < |name| {
      assert (head + (name + tail))[n] == name[k];
    } else {
      assert (head + (name + tail))[n] == tail[0];
    }
  }

  /** What the pass emits from a match on: the name without brackets, then text with no leading `>`. */
  lemma EmittedFromMatch(tag: string, m: Matcher, s: string) returns (name: string, tail: string)
    requires IsTagName(tag) && AllShaped(tag, m) && s != "" && m(s).Match?
    ensures Pass(m, s) == name + tail
    ensures |name| >= |tag| && '>' !in name && (tail == "" || tail[0] != '>')
  {
    var hit := m(s);
    NoBracketInName(tag, m, s);
    NoCloseAfterMatch(tag, m, Rest(hit, s));
    name, tail := Emitted(hit, s), Pass(m, Rest(hit, s));
  }

  /** A name and closing bracket in the output cannot straddle a match. */
  lemma MatchSwallowsClose(tag: string, m: Matcher, s: string, n: nat)
    requires IsTagName(tag) && AllShaped(tag, m) && Literal(m, s) >= 1
    requires Literal(m, s) <= n <= |tag| + 1 && n < |Pass(m, s)|
    ensures Pass(m, s)[n] != '>'
  {
    var k := Literal(m, s);
    LiteralPrefix(m, s);
    if k < |s| {
      var name, tail := EmittedFromMatch(tag, m, s[k..]);
      CloseCannotStraddle(s[..k], name, tail, n);
    }
  }

  lemma SameName(tag: string, a: string, b: string, len: nat)
    requires IsTagName(tag) && len <= |a| && len <= |b| && a[..len] == b[..len]
    requires 0 < NameLength(tag, a) < len
    ensures NameLength(tag, b) == NameLength(tag, a)
  {
    assert forall i :: 0 <= i < len ==> a[i] == b[i] by {
      forall i | 0 <= i < len ensures a[i] == b[i] { assert a[..len][i] == b[..len][i]; }
    }
    assert a[..|tag|] == b[..|tag|];
    if NameLength(tag, a) == |tag| + 1 {
      assert a[1..][..|tag|] == b[1..][..|tag|];
    }
  }

  /** If the output goes on with a name and a closing bracket, the input did so literally. */
  lemma NameWasLiteral(tag: string, m: Matcher, s: string)
    requires IsTagName(tag) && AllShaped(tag, m) && Literal(m, s) >= 1
    requires var n := NameLength(tag, Pass(m, s)); n > 0 && n < |Pass(m, s)| && Pass(m, s)[n] == '>'
    ensures var n := NameLength(tag, s); n > 0 && n < |s| && s[n] == '>'
  {
    var out := Pass(m, s);
    var n := NameLength(tag, out);
    if n >= Literal(m, s) {
      MatchSwallowsClose(tag, m, s, n);
    }
    LiteralPrefix(m, s);
    assert out[..n + 1] == s[..n + 1];
    SameName(tag, out, s, n + 1);
  }

  /** A tag at the start of the output, behind an unmatched first character, was in the input. */
  lemma StartTagWasThere(tag: string, m: Matcher, s: string)
    requires IsTagName(tag) && AllShaped(tag, m) && s != ""
    requires Pass(m, s) == [s[0]] + Pass(m, s[1..]) && TagStarts(tag, Pass(m, s))
    requires m(s[1..]).NoMatch?
    ensures TagStarts(tag, s)
  {
    assert Pass(m, s)[1..] == Pass(m, s[1..]);
    NameWasLiteral(tag, m, s[1..]);
  }

  lemma NoTagAtStart(tag: string, m: Matcher, s: string)
    requires IsTagName(tag) && AllShaped(tag, m) && Complete(tag, m) && s != "" && m(s).NoMatch?
    ensures !TagStarts(tag, Pass(m, s))
  {
    if TagStarts(tag, Pass(m, s)) {
      assert ['<'] + s[1..] == s;
      StartTagWasThere(tag, m, s);
    }
  }

  ghost predicate TagFree(tag: string, s: string)
    requires IsTagName(tag)
  {
    forall i :: 0 <= i < |s| ==> !TagStarts(tag, s[i..])
  }

  lemma PrependKeepsTagFree(tag: string, x: string, y: string)
    requires IsTagName(tag) && TagFree(tag, y)
    requires '<' !in x || (|x| == 1 && !TagStarts(tag, x + y))
    ensures TagFree(tag, x + y)
  {
    var s := x + y;
    forall i | 0 <= i < |s| ensures !TagStarts(tag, s[i..]) {
      if i >= |x| {
        assert s[i..] == y[i - |x|..];
      } else if '<' !in x {
        assert s[i..][0] == x[i];
      } else {
        assert s[0..] == s;
      }
    }
  }

  lemma {:induction false} PassLeavesNoTag(tag: string, m: Matcher, s: string)
    requires IsTagName(tag) && AllShaped(tag, m) && Complete(tag, m)
    ensures TagFree(tag, Pass(m, s))
    decreases |s|
  {
    if s != "" {
      if m(s).NoMatch? {
        PassLeavesNoTag(tag, m, s[1..]);
        TagFreeAfterLiteral(tag, m, s);
      } else {
        PassLeavesNoTag(tag, m, Rest(m(s), s));
        TagFreeAfterMatch(tag, m, s);
      }
    }
  }

  lemma TagFreeAfterLiteral(tag: string, m: Matcher, s: string)
    requires IsTagName(tag) && AllShaped(tag, m) && Complete(tag, m) && s != "" && m(s).NoMatch?
    requires TagFree(tag, Pass(m, s[1..]))
    ensures TagFree(tag, Pass(m, s))
  {
    NoTagAtStart(tag, m, s);
    PrependKeepsTagFree(tag, [s[0]], Pass(m, s[1..]));
  }

  lemma TagFreeAfterMatch(tag: string, m: Matcher, s: string)
    requires IsTagName(tag) && AllShaped(tag, m) && s != "" && m(s).Match?
    requires TagFree(tag, Pass(m, Rest(m(s), s)))
    ensures TagFree(tag, Pass(m, s))
  {
    NoBracketInName(tag, m, s);
    PrependKeepsTagFree(tag, Emitted(m(s), s), Pass(m, Rest(m(s), s)));
  }

  lemma NoBracketInName(tag: string, m: Matcher, s: string)
    requires AllShaped(tag, m) && s != "" && m(s).Match?
    ensures Applies(m(s), s) && |Emitted(m(s), s)| >= |tag|
    ensures '<' !in Emitted(m(s), s) && '>' !in Emitted(m(s), s)
    ensures Rest(m(s), s) == "" || Rest(m(s), s)[0] != '>'
  {
    assert Shaped(tag, s, m(s));
  }

  /** One pass leaves no opening or closing tag, however brackets were nested or repeated. */
  lemma NoTagLeft(tag: string, s: string)
    requires IsTagName(tag)
    ensures !HasTag(tag, Neutralise(tag, s))
  {
    TagsFindsTags(tag);
    PassLeavesNoTag(tag, Tags(tag), s);
  }

  lemma {:induction false} TagFreeIsKept(tag: string, s: string)
    requires IsTagName(tag) && TagFree(tag, s)
    ensures Neutralise(tag, s) == s
    decreases |s|
  {
    if s != "" {
      TagFreeHasNoMatch(tag, s);
      var rest := s[1..];
      forall i | 0 <= i < |rest| ensures !TagStarts(tag, rest[i..]) { assert rest[i..] == s[i + 1..]; }
      TagFreeIsKept(tag, rest);
    }
  }

  lemma TagFreeHasNoMatch(tag: string, s: string)
    requires IsTagName(tag) && TagFree(tag, s)
    ensures MatchAt(tag, s).NoMatch?
  {
    if MatchAt(tag, s).Match? { MatchHasTag(tag, s); }
  }

  /** Text without a tag is left exactly as it is, and so a second pass changes nothing. */
  lemma SecondPassIsIdentity(tag: string, s: string)
    requires IsTagName(tag)
    ensures !HasTag(tag, s) ==> Neutralise(tag, s) == s
    ensures Neutralise(tag, Neutralise(tag, s)) == Neutralise(tag, s)
  {
    if !HasTag(tag, s) { TagFreeIsKept(tag, s); }
    NoTagLeft(tag, s);
    TagFreeIsKept(tag, Neutralise(tag, s));
  }

  // ----- nothing else is touched -----

  /** `out` is `s` with some bracket characters left out, and nothing else changed or moved. */
  predicate ErasesBrackets(s: string, out: string) {
    if s == "" then out == ""
    else
      || (out != "" && out[0] == s[0] && ErasesBrackets(s[1..], out[1..]))
      || ((s[0] == '<' || s[0] == '>') && ErasesBrackets(s[1..], out))
  }

  lemma {:induction false} EraseRun(s: string, k: nat, out: string)
    requires k <= |s| && (forall i :: 0 <= i < k ==> s[i] == '<' || s[i] == '>')
    requires ErasesBrackets(s[k..], out)
    ensures ErasesBrackets(s, out)
    decreases k
  {
    if k == 0 {
      assert s[0..] == s;
    } else {
      assert s[1..][k - 1..] == s[k..];
      EraseRun(s[1..], k - 1, out);
    }
  }

  lemma {:induction false} KeepRun(s: string, k: nat, out: string)
    requires k <= |s| && ErasesBrackets(s[k..], out)
    ensures ErasesBrackets(s, s[..k] + out)
    decreases k
  {
    if k == 0 {
      assert s[0..] == s && s[..0] + out == out;
    } else {
      assert s[1..][k - 1..] == s[k..];
      KeepRun(s[1..], k - 1, out);
      assert (s[..k] + out)[1..] == s[1..][..k - 1] + out;
    }
  }

  lemma {:induction false} PassErasesBrackets(tag: string, m: Matcher, s: string)
    requires AllShaped(tag, m)
    ensures ErasesBrackets(s, Pass(m, s))
    decreases |s|
  {
    if s != "" {
      if m(s).NoMatch? {
        PassErasesBrackets(tag, m, s[1..]);
        assert Pass(m, s)[1..] == Pass(m, s[1..]);
      } else {
        PassErasesBrackets(tag, m, Rest(m(s), s));
        assert Shaped(tag, s, m(s));
        MatchErasesBrackets(tag, m(s), s, Pass(m, Rest(m(s), s)));
      }
    }
  }

  lemma MatchErasesBrackets(tag: string, hit: Match, s: string, out: string)
    requires s != "" && hit.Match? && Shaped(tag, s, hit) && ErasesBrackets(Rest(hit, s), out)
    ensures ErasesBrackets(s, Emitted(hit, s) + out)
  {
    EraseAround(s, hit.opens, hit.name, hit.closes, out);
  }

  lemma EraseAround(s: string, opens: nat, name: nat, closes: nat, out: string)
    requires opens + name + closes <= |s|
    requires forall i :: 0 <= i < opens ==> s[i] == '<'
    requires forall i :: opens + name <= i < opens + name + closes ==> s[i] == '>'
    requires ErasesBrackets(s[opens + name + closes..], out)
    ensures ErasesBrackets(s, s[opens..opens + name] + out)
  {
    var b := opens + name;
    assert s[b..][closes..] == s[b + closes..];
    EraseRun(s[b..], closes, out);
    assert s[opens..][name..] == s[b..] && s[opens..][..name] == s[opens..b];
    KeepRun(s[opens..], name, out);
    EraseRun(s, opens, s[opens..b] + out);
  }

  /** Brackets are all that a pass ever removes, and nothing is moved. */
  lemma OnlyBracketsAreErased(tag: string, s: string)
    requires IsTagName(tag)
    ensures ErasesBrackets(s, Neutralise(tag, s))
  {
    TagsFindsTags(tag);
    PassErasesBrackets(tag, Tags(tag), s);
  }

  // ----- line by line -----

  lemma {:induction false} RunBeforeBreak(c: char, a: string, b: string)
    requires c != '\n'
    ensures Run(c, a + "\n" + b) == Run(c, a)
    decreases |a|
  {
    var s := a + "\n" + b;
    if a == "" {
      assert s[0] == '\n';
    } else {
      assert s[1..] == a[1..] + "\n" + b && s[0] == a[0];
      RunBeforeBreak(c, a[1..], b);
    }
  }

  lemma NameBeforeBreak(tag: string, a: string, b: string)
    requires IsTagName(tag)
    ensures NameAt(tag, a + "\n" + b) <==> NameAt(tag, a)
  {
    var s := a + "\n" + b;
    if |tag| <= |a| {
      assert s[..|tag|] == a[..|tag|];
    } else {
      assert tag[|a|] in tag && Lower(tag[|a|]) != '\n';
      assert |tag| <= |s| ==> Lower(s[..|tag|][|a|]) == '\n';
    }
  }

  lemma LengthBeforeBreak(tag: string, a: string, b: string)
    requires IsTagName(tag)
    ensures NameLength(tag, a + "\n" + b) == NameLength(tag, a)
  {
    var s := a + "\n" + b;
    NameBeforeBreak(tag, a, b);
    if a == "" {
      assert s[0] == '\n';
    } else {
      assert s[0] == a[0] && s[1..] == a[1..] + "\n" + b;
      NameBeforeBreak(tag, a[1..], b);
    }
  }

  lemma DropBeforeBreak(a: string, b: string, k: nat)
    requires k <= |a|
    ensures (a + "\n" + b)[k..] == a[k..] + "\n" + b
  {
  }

  /** A match never runs over a line break. */
  lemma MatchBeforeBreak(tag: string, a: string, b: string)
    requires IsTagName(tag)
    ensures MatchAt(tag, a + "\n" + b) == MatchAt(tag, a)
  {
    RunBeforeBreak('<', a, b);
    var opens := Run('<', a);
    DropBeforeBreak(a, b, opens);
    LengthBeforeBreak(tag, a[opens..], b);
    ClosesBeforeBreak(a, b, opens + NameLength(tag, a[opens..]));
  }

  lemma ClosesBeforeBreak(a: string, b: string, k: nat)
    requires k <= |a|
    ensures Run('>', (a + "\n" + b)[k..]) == Run('>', a[k..])
  {
    DropBeforeBreak(a, b, k);
    RunBeforeBreak('>', a[k..], b);
  }

  /** Matches lie before the next line break, and do not depend on what follows it. */
  ghost predicate StopsAtBreaks(m: Matcher) {
    && (forall a, b :: m(a + "\n" + b) == m(a))
    && (forall a :: m(a).Match? ==> Applies(m(a), a))
  }

  lemma TagsStopAtBreaks(tag: string)
    requires IsTagName(tag)
    ensures StopsAtBreaks(Tags(tag))
  {
    forall a, b ensures Tags(tag)(a + "\n" + b) == Tags(tag)(a) { MatchBeforeBreak(tag, a, b); }
  }

  lemma {:induction false} LinesPassApart(m: Matcher, a: string, b: string)
    requires StopsAtBreaks(m)
    ensures Pass(m, a + "\n" + b) == Pass(m, a) + "\n" + Pass(m, b)
    decreases |a|
  {
    assert m(a + "\n" + b) == m(a);
    if a == "" {
      assert "" + "\n" + b == "\n" + b && ("\n" + b)[1..] == b;
      assert Pass(m, "\n" + b) == "\n" + Pass(m, b);
    } else {
      StepBeforeBreak(m(a), a, b);
      LinesPassApart(m, Rest(m(a), a), b);
    }
  }

  lemma StepBeforeBreak(hit: Match, a: string, b: string)
    requires a != "" && (hit.Match? ==> Applies(hit, a))
    ensures Emitted(hit, a + "\n" + b) == Emitted(hit, a)
    ensures Rest(hit, a + "\n" + b) == Rest(hit, a) + "\n" + b
  {
  }

  /** The pass works on each line by itself. */
  lemma LinesAreNeutralisedApart(tag: string, a: string, b: string)
    requires IsTagName(tag)
    ensures Neutralise(tag, a + "\n" + b) == Neutralise(tag, a) + "\n" + Neutralise(tag, b)
  {
    TagsStopAtBreaks(tag);
    LinesPassApart(Tags(tag), a, b);
  }

  ghost predicate NeedsBracket(m: Matcher) {
    forall s :: m(s).Match? ==> s != "" && s[0] == '<'
  }

  lemma PassKeepsChar(m: Matcher, c: char, s: string)
    requires NeedsBracket(m) && c != '<'
    ensures Pass(m, [c] + s) == [c] + Pass(m, s)
  {
    assert ([c] + s)[1..] == s;
  }

  lemma {:induction false} PassKeepsPlain(m: Matcher, p: string, s: string)
    requires NeedsBracket(m) && '<' !in p
    ensures Pass(m, p + s) == p + Pass(m, s)
    decreases |p|
  {
    if p == "" {
      assert p + s == s;
    } else {
      var c, rest := p[0], p[1..];
      PassKeepsPlain(m, rest, s);
      PassKeepsChar(m, c, rest + s);
      PutBack(c, rest, p, s, Pass(m, s));
    }
  }

  lemma PutBack(c: char, rest: string, p: string, s: string, out: string)
    requires p != "" && c == p[0] && rest == p[1..]
    ensures p + s == [c] + (rest + s) && p + out == [c] + (rest + out)
  {
  }

  /** Text without an opening bracket passes in front of anything. */
  lemma PlainPrefixIsKept(tag: string, p: string, s: string)
    requires IsTagName(tag) && '<' !in p
    ensures Neutralise(tag, p + s) == p + Neutralise(tag, s)
  {
    PassKeepsPlain(Tags(tag), p, s);
  }

  // ----- what a tag is -----

  /** A bracket, perhaps a slash, the name in any mix of cases, and a bracket. */
  ghost predicate ReadsTag(tag: string, s: string, slash: string, name: string, rest: string) {
    slash in {"", "/"} && SameIgnoringCase(name, tag) && s == "<" + (slash + (name + (">" + rest)))
  }

  /** A tag is exactly that. */
  lemma TagMeans(tag: string, s: string)
    requires IsTagName(tag)
    ensures TagStarts(tag, s) <==> exists slash, name, rest :: ReadsTag(tag, s, slash, name, rest)
  {
    if TagStarts(tag, s) {
      var slash, name, rest := TagIsRead(tag, s);
    }
    if slash, name, rest :| ReadsTag(tag, s, slash, name, rest) {
      WrittenTagStarts(tag, slash, name, rest);
    }
  }

  lemma TagIsRead(tag: string, s: string) returns (slash: string, name: string, rest: string)
    requires IsTagName(tag) && TagStarts(tag, s)
    ensures ReadsTag(tag, s, slash, name, rest)
  {
    var n := NameLength(tag, s[1..]);
    slash := if n == |tag| then "" else "/";
    name, rest := s[1 + |slash|..1 + n], s[2 + n..];
    assert name == s[1 + |slash|..][..|tag|];
    assert s[1..][1..] == s[2..];
    CutTag(s, |slash|, n);
  }

  /** Letters are compared by their place in the alphabet, everything else as it is. */
  lemma CaseMeans(a: char, b: char)
    ensures Lower(a) == Lower(b) <==>
      || a == b
      || ('A' <= a <= 'Z' && b as int - 'a' as int == a as int - 'A' as int)
      || ('A' <= b <= 'Z' && a as int - 'a' as int == b as int - 'A' as int)
  {
  }

  lemma CutTag(s: string, slash: nat, n: nat)
    requires slash <= 1 && slash <= n && 1 + n < |s| && s[0] == '<' && s[1 + n] == '>' && (slash == 1 ==> s[1] == '/')
    ensures s == "<" + ((if slash == 0 then "" else "/") + (s[1 + slash..1 + n] + (">" + s[2 + n..])))
  {
  }

  lemma WrittenTagStarts(tag: string, slash: string, name: string, rest: string)
    requires IsTagName(tag) && slash in {"", "/"} && SameIgnoringCase(name, tag)
    ensures TagStarts(tag, "<" + (slash + (name + (">" + rest))))
  {
    var tail := name + (">" + rest);
    var s := "<" + (slash + tail);
    assert s[1..] == slash + tail && tail[..|tag|] == name && tail[|tag|] == '>';
    if slash == "/" {
      assert s[1..][1..] == tail;
      assert s[1..][0] == '/';
      assert s[1..][..|tag|][0] == '/';
      assert tag[0] in tag;
    } else {
      assert slash + tail == tail;
    }
  }

  // ----- the fence holds -----

  // Long literals are written in parts: the verifier can look inside short ones.
  const NOTE := "\n[knowledge context" + (" truncated at the " + "size cap]")
  const TRUNCATED := "\n" + NOTE

  /** The reference block as the prompt carries it: neutralised, possibly cut short, then the closing fence. */
  function Fenced(tag: string, raw: string, cut: nat, rest: string): string
    requires IsTagName(tag)
  {
    Body(tag, raw, cut) + "\n" + ("</" + tag + ">" + rest)
  }

  function Body(tag: string, raw: string, cut: nat): string
    requires IsTagName(tag)
  {
    var clean := Neutralise(tag, raw);
    if cut < |clean| then clean[..cut] + TRUNCATED else clean
  }

  /** A tag that starts before a line break lies before it. */
  lemma TagBeforeBreak(tag: string, s: string, more: string, i: nat)
    requires IsTagName(tag) && i <= |s| && TagStarts(tag, (s + "\n" + more)[i..])
    ensures i < |s| && TagStarts(tag, s[i..])
  {
    var whole := s + "\n" + more;
    var t := whole[i..];
    var n := NameLength(tag, t[1..]);
    NameHasNoBreak(tag, t[1..]);
    assert forall k :: 0 <= k < |t| ==> t[k] == whole[i + k];
    assert t[|s| - i] == '\n';
    assert |s| - i >= 1 ==> t[1..][|s| - i - 1] == '\n';
    assert n + 1 < |s| - i;
    assert s[i..][1..][..n + 1] == t[1..][..n + 1];
    SameName(tag, t[1..], s[i..][1..], n + 1);
  }

  lemma NameHasNoBreak(tag: string, s: string)
    requires IsTagName(tag) && NameLength(tag, s) > 0
    ensures forall i :: 0 <= i < NameLength(tag, s) ==> s[i] != '\n'
  {
    var from := if NameAt(tag, s) then s else s[1..];
    forall i | 0 <= i < |tag| ensures from[i] != '\n' {
      assert Lower(from[..|tag|][i]) == Lower(tag[i]);
      assert tag[i] in tag;
    }
    forall i | 0 <= i < NameLength(tag, s) ensures s[i] != '\n' {
      if !NameAt(tag, s) && i > 0 { assert s[i] == from[i - 1]; }
    }
  }

  /** A tag in a prefix is a tag of the text. */
  lemma TagInPrefix(tag: string, s: string, cut: nat, i: nat)
    requires IsTagName(tag) && i < cut <= |s| && TagStarts(tag, s[..cut][i..])
    ensures TagStarts(tag, s[i..])
  {
    var part, full := s[..cut][i..], s[i..];
    assert part == full[..|part|];
    assert part[1..] == full[1..][..|part| - 1];
    SameName(tag, part[1..], full[1..], |part| - 1);
  }

  lemma BodyIsTagFree(tag: string, raw: string, cut: nat)
    requires IsTagName(tag)
    ensures TagFree(tag, Body(tag, raw, cut))
  {
    NoTagLeft(tag, raw);
    var clean := Neutralise(tag, raw);
    if cut < |clean| {
      CutIsTagFree(tag, clean, cut);
    }
  }

  lemma NoteHasNoBracket()
    ensures '<' !in NOTE
  {
    var a, b, c := "\n[knowledge context", " truncated at the ", "size cap]";
    assert '<' !in a && '<' !in b && '<' !in c;
  }

  lemma CutIsTagFree(tag: string, clean: string, cut: nat)
    requires IsTagName(tag) && TagFree(tag, clean) && cut <= |clean|
    ensures TagFree(tag, clean[..cut] + TRUNCATED)
  {
    var head, text := clean[..cut], clean[..cut] + TRUNCATED;
    Assoc(head, "\n", NOTE);
    NoteHasNoBracket();
    forall i | 0 <= i < |text| ensures !TagStarts(tag, text[i..]) {
      if i <= cut && TagStarts(tag, text[i..]) {
        TagBeforeBreak(tag, head, NOTE, i);
        TagInPrefix(tag, clean, cut, i);
      } else if i >= cut {
        assert text[i..][0] == TRUNCATED[i - cut];
      }
    }
  }

  /** Texts on either side of a line break have no tag between them. */
  lemma BreakKeepsTagFree(tag: string, a: string, b: string)
    requires IsTagName(tag) && TagFree(tag, a) && TagFree(tag, b)
    ensures TagFree(tag, a + "\n" + b)
  {
    var text := a + "\n" + b;
    forall i | 0 <= i < |text| ensures !TagStarts(tag, text[i..]) {
      if i <= |a| {
        if TagStarts(tag, text[i..]) { TagBeforeBreak(tag, a, b, i); }
      } else {
        assert text[i..] == b[i - |a| - 1..];
      }
    }
  }

  /** After a body without tags the first tag is the harness's own closing fence. */
  lemma ClosingFenceIsFirst(tag: string, body: string, rest: string)
    requires IsTagName(tag) && TagFree(tag, body)
    ensures var text, end := body + "\n" + ("</" + tag + ">" + rest), |body| + 1;
      && (forall i :: 0 <= i < end ==> !TagStarts(tag, text[i..]))
      && TagStarts(tag, text[end..])
  {
    var close := "</" + tag + ">" + rest;
    var text, end := body + "\n" + close, |body| + 1;
    forall i | 0 <= i < end ensures !TagStarts(tag, text[i..]) {
      if TagStarts(tag, text[i..]) { TagBeforeBreak(tag, body, close, i); }
    }
    assert text[end..] == close;
    ClosingFenceIsTag(tag, rest);
  }

  /** Whatever the raw text and wherever it was cut, the first tag after the opening fence is the
      harness's own closing fence. */
  lemma FenceHolds(tag: string, raw: string, cut: nat, rest: string)
    requires IsTagName(tag)
    ensures var text, end := Fenced(tag, raw, cut, rest), |Body(tag, raw, cut)| + 1;
      && (forall i :: 0 <= i < end ==> !TagStarts(tag, text[i..]))
      && TagStarts(tag, text[end..])
  {
    BodyIsTagFree(tag, raw, cut);
    ClosingFenceIsFirst(tag, Body(tag, raw, cut), rest);
  }

  lemma ClosingFenceIsTag(tag: string, rest: string)
    requires IsTagName(tag)
    ensures TagStarts(tag, "</" + tag + ">" + rest)
  {
    var s := "</" + tag + ">" + rest;
    var name := s[1..];
    assert name[1..][..|tag|] == tag;
    assert tag[0] in tag;
    assert name[..|tag|][0] == '/';
    assert s[1 + |tag| + 1] == '>';
  }
}
