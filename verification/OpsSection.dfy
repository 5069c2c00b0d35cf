/** The reviewer's operational-knowledge section: greedy packing of entries under a byte budget. */
module OpsSection {
  import opened Text
  import opened Packing
  import Fence

  const MAX_ENTRIES := 10
  const MAX_BYTES := 12 * 1024
  const SEPARATOR := "\n\n---\n\n"
  // Long literals are written in parts: the verifier can look inside short ones.
  const MARKER := "[operational know" + ("ledge truncated at" + " the size cap]")

  datatype Entry = Entry(
    id: string, version: int, kind: string, title: string, projectId: Option<string>, domain: Option<string>,
    tags: seq<string>, body: string
  )

  datatype Section = Section(body: string, included: seq<Entry>, omitted: nat)

  /** The fence tag and the truncation marker the section is built with. */
  datatype Frame = Frame(tag: string, marker: string)

  const OPS := Frame(Fence.OPERATIONAL, MARKER)

  ghost predicate Usable(f: Frame) {
    Fence.IsTagName(f.tag) && Plain(f.marker)
  }

  /** ASCII without an opening bracket. */
  predicate Plain(s: string) {
    forall i :: 0 <= i < |s| ==> s[i] as int < 0x80 && s[i] != '<'
  }

  lemma OpsIsUsable()
    ensures Usable(OPS)
  {
    Fence.FencesHaveTagNames();
    PlainParts("ledge truncated at", " the size cap]");
    PlainParts("[operational know", "ledge truncated at" + " the size cap]");
  }

  lemma PlainParts(a: string, b: string)
    requires Plain(a) && Plain(b)
    ensures Plain(a + b)
  {
  }

  // ----- the truncation marker -----

  /** As much of the marker as fits. */
  function FitMarkerWithin(marker: string, maxBytes: nat): string {
    if |marker| <= maxBytes then marker else marker[..maxBytes]
  }

  lemma FittedMarker(f: Frame, maxBytes: nat)
    requires Usable(f)
    ensures Bytes(FitMarkerWithin(f.marker, maxBytes)) == if Bytes(f.marker) <= maxBytes then Bytes(f.marker) else maxBytes
    ensures FitMarkerWithin(f.marker, maxBytes) <= f.marker
    ensures Fence.TagFree(f.tag, FitMarkerWithin(f.marker, maxBytes))
  {
    var m := FitMarkerWithin(f.marker, maxBytes);
    AsciiBytes(m);
    AsciiBytes(f.marker);
    PlainIsTagFree(f.tag, m);
  }

  // ----- blocks -----

  function JoinTags(tags: seq<string>): string {
    if tags == [] then "" else if |tags| == 1 then tags[0] else JoinTags(tags[..|tags| - 1]) + "," + tags[|tags| - 1]
  }

  function Rendered(e: Entry): string {
    var scope := if e.projectId.Some? then e.projectId.value else if e.domain.Some? then e.domain.value else "portable";
    var tags := if e.tags == [] then "" else " tags=" + JoinTags(e.tags);
    "### " + (e.title + "\n(kind=" + e.kind + " scope=" + scope + tags + ")\n\n" + e.body)
  }

  function Block(tag: string, e: Entry): string
    requires Fence.IsTagName(tag)
  {
    Fence.Neutralise(tag, Rendered(e))
  }

  function Blocks(tag: string, entries: seq<Entry>): (blocks: seq<string>)
    requires Fence.IsTagName(tag)
    ensures |blocks| == |entries| && forall i :: 0 <= i < |entries| ==> blocks[i] == Block(tag, entries[i])
  {
    seq(|entries|, i requires 0 <= i < |entries| => Block(tag, entries[i]))
  }

  /** JavaScript's `entries.slice(0, max)`: a negative `max` counts from the end. */
  function Shown(entries: seq<Entry>, max: int): (shown: seq<Entry>)
    ensures shown <= entries
  {
    if max >= |entries| then entries
    else if max >= 0 then entries[..max]
    else if |entries| + max >= 0 then entries[..|entries| + max]
    else []
  }

  function Budget(maxBytes: Option<int>): nat {
    if maxBytes.None? then MAX_BYTES else if maxBytes.value < 0 then 0 else maxBytes.value
  }

  function EntryCap(maxEntries: Option<int>): int {
    if maxEntries.None? then MAX_ENTRIES else maxEntries.value
  }

  // ----- the section -----

  function LayoutOf(f: Frame, budget: nat): Layout {
    Layout(SEPARATOR, "\n\n" + f.marker, budget, (s: string) => Bytes(s))
  }

  lemma LayoutAdds(f: Frame, budget: nat)
    ensures Additive(LayoutOf(f, budget))
  {
    BytesAddUp();
  }

  /** The section fits its budget, shows a prefix of the entries, accounts for all of them, and leaves
      out only what would not have fitted. */
  method BuildReviewSection(f: Frame, entries: seq<Entry>, maxEntries: Option<int>, maxBytes: Option<int>) returns (s: Section)
    requires Usable(f)
    ensures entries == [] ==> s == Section("", [], 0)
    ensures |s.included| + s.omitted == |entries| && s.included == entries[..|s.included|]
    ensures entries != [] ==> var budget := Budget(maxBytes);
      Packs(LayoutOf(f, budget), FitMarkerWithin(f.marker, budget), Blocks(f.tag, Shown(entries, EntryCap(maxEntries))),
            |entries|, |s.included|, s.body)
  {
    if entries == [] {
      return Section("", [], 0);
    }
    var shown := Shown(entries, EntryCap(maxEntries));
    var body, included := PackShown(f, shown, |entries|, Budget(maxBytes));
    s := Section(body, included, |entries| - |included|);
  }

  method PackShown(f: Frame, shown: seq<Entry>, total: nat, budget: nat) returns (body: string, included: seq<Entry>)
    requires Usable(f) && |shown| <= total && total > 0
    ensures |included| <= |shown| && included == shown[..|included|]
    ensures Packs(LayoutOf(f, budget), FitMarkerWithin(f.marker, budget), Blocks(f.tag, shown), total, |included|, body)
  {
    FittedMarker(f, budget);
    LayoutAdds(f, budget);
    BlocksAreNotEmpty(f.tag, shown);
    body, included := Pack(LayoutOf(f, budget), FitMarkerWithin(f.marker, budget), Blocks(f.tag, shown), shown, total);
  }

  lemma BlocksAreNotEmpty(tag: string, entries: seq<Entry>)
    requires Fence.IsTagName(tag)
    ensures forall i :: 0 <= i < |entries| ==> Blocks(tag, entries)[i] != ""
  {
    forall i | 0 <= i < |entries| ensures Blocks(tag, entries)[i] != "" { BlockIsNotEmpty(tag, entries[i]); }
  }

  /** A block keeps its heading. */
  lemma BlockIsNotEmpty(tag: string, e: Entry)
    requires Fence.IsTagName(tag)
    ensures Block(tag, e) != ""
  {
    Fence.OnlyBracketsAreErased(tag, Rendered(e));
    assert Rendered(e)[0] == '#';
  }

  // ----- what the section shows -----

  /** Where an entry applies: its project, else its domain, else everywhere. */
  function ScopeText(e: Entry): string {
    match (e.projectId, e.domain)
    case (Some(project), _) => project
    case (None, Some(domain)) => domain
    case (None, None) => "portable"
  }

  /** The line under the title. */
  function Caption(e: Entry): string {
    "(kind=" + e.kind + " scope=" + ScopeText(e) + (if |e.tags| > 0 then " tags=" + Join(e.tags, ",") else "") + ")"
  }

  lemma {:induction false} JoinSnoc(tags: seq<string>, last: string, sep: string)
    requires tags != []
    ensures Join(tags + [last], sep) == Join(tags, sep) + sep + last
    decreases |tags|
  {
    assert (tags + [last])[1..] == tags[1..] + [last];
    if |tags| > 1 { JoinSnoc(tags[1..], last, sep); }
  }

  lemma {:induction false} TagsAreJoined(tags: seq<string>)
    ensures JoinTags(tags) == Join(tags, ",")
    decreases |tags|
  {
    if |tags| > 1 {
      var front := tags[..|tags| - 1];
      TagsAreJoined(front);
      JoinSnoc(front, tags[|tags| - 1], ",");
      assert tags == front + [tags[|tags| - 1]];
    }
  }

  lemma RenderedShows(e: Entry)
    ensures Rendered(e) == "### " + e.title + "\n" + (Caption(e) + "\n" + ("\n" + e.body))
  {
    TagsAreJoined(e.tags);
    var tags := if e.tags == [] then "" else " tags=" + JoinTags(e.tags);
    Regrouped("### ", e.title, "(kind=", e.kind, " scope=", ScopeText(e), tags, e.body);
  }

  lemma Regrouped(a: string, title: string, b: string, kind: string, c: string, scope: string, tags: string, body: string)
    ensures a + (title + ("\n" + b) + kind + c + scope + tags + ")\n\n" + body) ==
      a + title + "\n" + (b + kind + c + scope + tags + ")" + "\n" + ("\n" + body))
  {
    var caption := b + kind + c + scope + tags;
    assert title + ("\n" + b) + kind + c + scope + tags == title + "\n" + caption;
    assert ")\n\n" + body == ")" + "\n" + ("\n" + body);
  }

  /** A block shows the entry's title as a heading, its caption and its body, each neutralised. */
  lemma BlockShows(tag: string, e: Entry)
    requires Fence.IsTagName(tag)
    ensures Block(tag, e) ==
      "### " + Fence.Neutralise(tag, e.title) + "\n" + (Fence.Neutralise(tag, Caption(e)) + "\n" + ("\n" + Fence.Neutralise(tag, e.body)))
  {
    RenderedShows(e);
    HeadingIsPlain();
    Fence.PlainPrefixIsKept(tag, "### ", e.title);
    Fence.LinesAreNeutralisedApart(tag, "### " + e.title, Caption(e) + "\n" + ("\n" + e.body));
    Fence.LinesAreNeutralisedApart(tag, Caption(e), "\n" + e.body);
    Fence.PlainPrefixIsKept(tag, "\n", e.body);
  }

  lemma HeadingIsPlain()
    ensures '<' !in "### "
  {
  }

  /** Each of the first `n` blocks occurs in the body. */
  lemma {:induction false} BodyHoldsBlock(lay: Layout, blocks: seq<string>, n: nat, i: nat) returns (u: string, v: string)
    requires i < n <= |blocks|
    ensures Body(lay, blocks, n) == u + blocks[i] + v
    decreases n
  {
    if i == n - 1 {
      u, v := Body(lay, blocks, i) + (if i == 0 then "" else lay.separator), "";
    } else {
      u, v := BodyHoldsBlock(lay, blocks, n - 1, i);
      v := v + Part(lay, blocks, n - 1);
    }
  }

  /** Every entry counted as included is in the section: title, caption and body, neutralised. */
  lemma IncludedIsShown(f: Frame, budget: nat, shown: seq<Entry>, total: nat, n: nat, body: string, i: nat) returns (u: string, v: string)
    requires Usable(f) && i < n
    requires Packs(LayoutOf(f, budget), FitMarkerWithin(f.marker, budget), Blocks(f.tag, shown), total, n, body)
    ensures i < |shown|
    ensures body == u + ("### " + Fence.Neutralise(f.tag, shown[i].title) + "\n"
      + (Fence.Neutralise(f.tag, Caption(shown[i])) + "\n" + ("\n" + Fence.Neutralise(f.tag, shown[i].body)))) + v
  {
    var lay, blocks := LayoutOf(f, budget), Blocks(f.tag, shown);
    u, v := BodyHoldsBlock(lay, blocks, n, i);
    BlockShows(f.tag, shown[i]);
    if n < total {
      Assoc(u + blocks[i], v, lay.note);
      v := v + lay.note;
    }
  }

  // ----- the caps -----

  /** The caps are what was asked for, ten entries and 12288 bytes by default; a negative budget is no budget,
      and a negative number of entries drops that many from the end. */
  lemma CapsMean(entries: seq<Entry>, maxEntries: Option<int>, maxBytes: Option<int>)
    ensures Budget(None) == 12288 && EntryCap(None) == 10
    ensures maxBytes.Some? ==> Budget(maxBytes) >= maxBytes.value && (Budget(maxBytes) == maxBytes.value || Budget(maxBytes) == 0)
    ensures maxEntries.Some? ==> EntryCap(maxEntries) == maxEntries.value
    ensures var n, max := |Shown(entries, EntryCap(maxEntries))|, EntryCap(maxEntries);
      if max < 0 then n == (if |entries| < -max then 0 else |entries| + max) else n == (if |entries| < max then |entries| else max)
  {
  }

  // ----- the fence around it -----

  lemma PlainIsTagFree(tag: string, s: string)
    requires Fence.IsTagName(tag) && '<' !in s
    ensures Fence.TagFree(tag, s)
  {
    Fence.PrependKeepsTagFree(tag, s, "");
    assert s + "" == s;
  }

  ghost predicate AllTagFree(tag: string, blocks: seq<string>)
    requires Fence.IsTagName(tag)
  {
    forall i :: 0 <= i < |blocks| ==> Fence.TagFree(tag, blocks[i])
  }

  lemma BlocksAreTagFree(tag: string, entries: seq<Entry>)
    requires Fence.IsTagName(tag)
    ensures AllTagFree(tag, Blocks(tag, entries))
  {
    forall i | 0 <= i < |entries| ensures Fence.TagFree(tag, Blocks(tag, entries)[i]) {
      Fence.NoTagLeft(tag, Rendered(entries[i]));
    }
  }

  lemma SeparatedIsTagFree(tag: string, a: string, b: string)
    requires Fence.IsTagName(tag) && Fence.TagFree(tag, a) && Fence.TagFree(tag, b)
    ensures Fence.TagFree(tag, a + (SEPARATOR + b))
  {
    var rest := "\n---\n\n";
    Fence.PrependKeepsTagFree(tag, rest, b);
    Fence.BreakKeepsTagFree(tag, a, rest + b);
    assert a + (SEPARATOR + b) == a + "\n" + (rest + b);
  }

  lemma {:induction false} BodyIsTagFree(tag: string, lay: Layout, blocks: seq<string>, n: nat)
    requires Fence.IsTagName(tag) && lay.separator == SEPARATOR && n <= |blocks| && AllTagFree(tag, blocks)
    ensures Fence.TagFree(tag, Body(lay, blocks, n))
  {
    if n == 1 {
      assert Body(lay, blocks, 1) == "" + blocks[0] == blocks[0];
    } else if n > 1 {
      BodyIsTagFree(tag, lay, blocks, n - 1);
      SeparatedIsTagFree(tag, Body(lay, blocks, n - 1), blocks[n - 1]);
    }
  }

  lemma NotedIsTagFree(f: Frame, a: string)
    requires Usable(f) && Fence.TagFree(f.tag, a)
    ensures Fence.TagFree(f.tag, a + ("\n\n" + f.marker))
  {
    var rest := "\n" + f.marker;
    PlainIsTagFree(f.tag, rest);
    Fence.BreakKeepsTagFree(f.tag, a, rest);
    assert a + ("\n\n" + f.marker) == a + "\n" + rest;
  }

  lemma PackedIsTagFree(f: Frame, lay: Layout, blocks: seq<string>, shown: seq<Entry>, total: nat, n: nat, body: string)
    requires Usable(f) && lay.separator == SEPARATOR && lay.note == "\n\n" + f.marker && blocks == Blocks(f.tag, shown)
    requires Packs(lay, FitMarkerWithin(f.marker, lay.budget), blocks, total, n, body)
    ensures Fence.TagFree(f.tag, body)
  {
    BlocksAreTagFree(f.tag, shown);
    FittedMarker(f, lay.budget);
    BodyIsTagFree(f.tag, lay, blocks, n);
    NotedIsTagFree(f, Body(lay, blocks, n));
    BodyIsTagFree(f.tag, lay, blocks, |blocks|);
  }

  /** No entry can close the fence: whatever the entries hold, the first tag after the opening fence is
      the harness's own closing one. */
  lemma SectionStaysFenced(f: Frame, budget: nat, shown: seq<Entry>, total: nat, n: nat, body: string, rest: string)
    requires Usable(f)
    requires Packs(LayoutOf(f, budget), FitMarkerWithin(f.marker, budget), Blocks(f.tag, shown), total, n, body)
    ensures var text, end := body + "\n" + ("</" + f.tag + ">" + rest), |body| + 1;
      && (forall i :: 0 <= i < end ==> !Fence.TagStarts(f.tag, text[i..]))
      && Fence.TagStarts(f.tag, text[end..])
  {
    PackedIsTagFree(f, LayoutOf(f, budget), Blocks(f.tag, shown), shown, total, n, body);
    Fence.ClosingFenceIsFirst(f.tag, body, rest);
  }
}
