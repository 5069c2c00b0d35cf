/** Greedy packing of text blocks under a byte budget, with a note when something had to be left out. */
module Packing {
  // ----- bytes -----

  /** How many bytes UTF-8 gives a character. */
  function Width(c: char): (n: nat)
    ensures 1 <= n <= 4
  {
    if c as int < 0x80 then 1 else if c as int < 0x800 then 2 else if c as int < 0x1_0000 then 3 else 4
  }

  function Bytes(s: string): nat {
    if s == "" then 0 else Bytes(s[..|s| - 1]) + Width(s[|s| - 1])
  }

  lemma {:induction false} BytesConcat(a: string, b: string)
    ensures Bytes(a + b) == Bytes(a) + Bytes(b)
    decreases |b|
  {
    if b == "" {
      assert a + b == a;
    } else {
      var front := b[..|b| - 1];
      BytesConcat(a, front);
      assert (a + b)[..|a + b| - 1] == a + front;
    }
  }

  /** Plain ASCII takes a byte a character, so it can be cut at any byte. */
  lemma {:induction false} AsciiBytes(s: string)
    requires forall i :: 0 <= i < |s| ==> s[i] as int < 0x80
    ensures Bytes(s) == |s|
  {
    if s != "" { AsciiBytes(s[..|s| - 1]); }
  }

  lemma BytesAddUp()
    ensures forall a, b :: Bytes(a + b) == Bytes(a) + Bytes(b)
  {
    forall a, b ensures Bytes(a + b) == Bytes(a) + Bytes(b) { BytesConcat(a, b); }
  }

  // ----- bodies -----

  /** How blocks are joined, what is said when some are left out, and how the budget is measured. */
  datatype Layout = Layout(separator: string, note: string, budget: nat, size: string -> nat)

  ghost predicate Additive(lay: Layout) {
    forall a, b :: lay.size(a + b) == lay.size(a) + lay.size(b)
  }

  /** What the block at `i` adds to the body. */
  function Part(lay: Layout, blocks: seq<string>, i: nat): string
    requires i < |blocks|
  {
    if i == 0 then blocks[i] else lay.separator + blocks[i]
  }

  /** The body that shows the first `n` blocks. */
  function Body(lay: Layout, blocks: seq<string>, n: nat): string
    requires n <= |blocks|
  {
    if n == 0 then "" else Body(lay, blocks, n - 1) + Part(lay, blocks, n - 1)
  }

  lemma BodyGrows(lay: Layout, blocks: seq<string>, n: nat)
    requires Additive(lay) && n < |blocks|
    ensures lay.size(Body(lay, blocks, n)) <= lay.size(Body(lay, blocks, n + 1))
  {
  }

  /** Showing more never takes fewer bytes. */
  lemma {:induction false} MoreIsLonger(lay: Layout, blocks: seq<string>, n: nat, m: nat)
    requires Additive(lay) && n <= m <= |blocks|
    ensures lay.size(Body(lay, blocks, n)) <= lay.size(Body(lay, blocks, m))
    decreases m - n
  {
    if n < m {
      BodyGrows(lay, blocks, m - 1);
      MoreIsLonger(lay, blocks, n, m - 1);
    }
  }

  /** The first `n` blocks fit the budget together with the note. */
  predicate FitsWithNote(lay: Layout, blocks: seq<string>, n: nat)
    requires n <= |blocks|
  {
    lay.size(Body(lay, blocks, n) + lay.note) <= lay.budget
  }

  lemma LongerDoesNotFit(lay: Layout, blocks: seq<string>, n: nat, m: nat)
    requires Additive(lay) && n <= m <= |blocks| && !FitsWithNote(lay, blocks, n)
    ensures !FitsWithNote(lay, blocks, m)
  {
    MoreIsLonger(lay, blocks, n, m);
  }

  lemma NothingTakesNothing(lay: Layout)
    requires Additive(lay)
    ensures lay.size("") == 0
  {
    assert "" + "" == "";
    assert lay.size("" + "") == lay.size("") + lay.size("");
  }

  // ----- packing -----

  function Concat(parts: seq<string>): string {
    if parts == [] then "" else Concat(parts[..|parts| - 1]) + parts[|parts| - 1]
  }

  /** The parts pushed so far are those of the first blocks. */
  ghost predicate Pushed<T>(lay: Layout, blocks: seq<string>, shown: seq<T>, parts: seq<string>, included: seq<T>) {
    && |parts| <= |blocks| == |shown| && included == shown[..|parts|]
    && forall k :: 0 <= k < |parts| ==> parts[k] == Part(lay, blocks, k)
  }

  lemma {:induction false} ConcatIsBody<T>(lay: Layout, blocks: seq<string>, shown: seq<T>, parts: seq<string>, included: seq<T>)
    requires Pushed(lay, blocks, shown, parts, included)
    ensures Concat(parts) == Body(lay, blocks, |parts|)
    decreases |parts|
  {
    if parts != [] {
      var n := |parts| - 1;
      ConcatIsBody(lay, blocks, shown, parts[..n], shown[..n]);
    }
  }

  lemma PushedMore<T>(lay: Layout, blocks: seq<string>, shown: seq<T>, parts: seq<string>, included: seq<T>, part: string)
    requires Pushed(lay, blocks, shown, parts, included) && |parts| < |blocks| && part == Part(lay, blocks, |parts|)
    ensures Pushed(lay, blocks, shown, parts + [part], included + [shown[|parts|]])
  {
  }

  lemma PushedLess<T>(lay: Layout, blocks: seq<string>, shown: seq<T>, parts: seq<string>, included: seq<T>)
    requires Pushed(lay, blocks, shown, parts, included) && parts != []
    ensures |included| == |parts| && Pushed(lay, blocks, shown, parts[..|parts| - 1], included[..|included| - 1])
  {
  }

  /** The first `n` blocks fit. */
  predicate Fits(lay: Layout, blocks: seq<string>, n: nat)
    requires n <= |blocks|
  {
    lay.size(Body(lay, blocks, n)) <= lay.budget
  }

  lemma PushTest<T>(lay: Layout, blocks: seq<string>, shown: seq<T>, parts: seq<string>, included: seq<T>, part: string)
    requires Pushed(lay, blocks, shown, parts, included) && |parts| < |blocks| && part == Part(lay, blocks, |parts|)
    ensures lay.size(Concat(parts) + part) <= lay.budget <==> Fits(lay, blocks, |parts| + 1)
  {
    ConcatIsBody(lay, blocks, shown, parts, included);
  }

  lemma PopTest<T>(lay: Layout, blocks: seq<string>, shown: seq<T>, parts: seq<string>, included: seq<T>)
    requires Pushed(lay, blocks, shown, parts, included)
    ensures lay.size(Concat(parts) + lay.note) <= lay.budget <==> FitsWithNote(lay, blocks, |parts|)
  {
    ConcatIsBody(lay, blocks, shown, parts, included);
  }

  lemma NothingFits(lay: Layout, blocks: seq<string>)
    requires Additive(lay)
    ensures Fits(lay, blocks, 0)
  {
    NothingTakesNothing(lay);
  }

  /** Push blocks while the body stays within the budget. */
  method PushWhileFits<T>(lay: Layout, blocks: seq<string>, shown: seq<T>)
    returns (parts: seq<string>, included: seq<T>, cut: bool)
    requires |blocks| == |shown| && Fits(lay, blocks, 0)
    ensures Pushed(lay, blocks, shown, parts, included)
    ensures Fits(lay, blocks, |parts|)
    ensures cut <==> |parts| < |blocks|
    ensures cut ==> !Fits(lay, blocks, |parts| + 1)
  {
    parts, included, cut := [], [], false;
    var i := 0;
    while i < |blocks|
      invariant 0 <= i <= |blocks| && |parts| == i && Pushed(lay, blocks, shown, parts, included)
      invariant Fits(lay, blocks, i)
    {
      var fits, more := PushNext(lay, blocks, shown, parts, included);
      if !fits {
        cut := true;
        return;
      }
      parts, included := more, included + [shown[i]];
      i := i + 1;
    }
  }

  /** The next part, and whether the body still fits with it. */
  method PushNext<T>(lay: Layout, blocks: seq<string>, shown: seq<T>, parts: seq<string>, included: seq<T>)
    returns (fits: bool, more: seq<string>)
    requires Pushed(lay, blocks, shown, parts, included) && |parts| < |blocks|
    ensures fits <==> Fits(lay, blocks, |parts| + 1)
    ensures |more| == |parts| + 1 && Pushed(lay, blocks, shown, more, included + [shown[|parts|]])
  {
    var nextPart := if parts == [] then blocks[|parts|] else lay.separator + blocks[|parts|];
    PushTest(lay, blocks, shown, parts, included, nextPart);
    PushedMore(lay, blocks, shown, parts, included, nextPart);
    fits, more := lay.size(Concat(parts) + nextPart) <= lay.budget, parts + [nextPart];
  }

  /** Nothing longer than the first `n` blocks fits together with the note. */
  ghost predicate IsMaximal(lay: Layout, blocks: seq<string>, n: nat) {
    forall m: nat :: n < m <= |blocks| ==> !FitsWithNote(lay, blocks, m)
  }

  lemma CutIsMaximal(lay: Layout, blocks: seq<string>, n: nat)
    requires Additive(lay) && n <= |blocks| && (n < |blocks| ==> !Fits(lay, blocks, n + 1))
    ensures IsMaximal(lay, blocks, n)
  {
    forall m: nat | n < m <= |blocks| ensures !FitsWithNote(lay, blocks, m) { LongerDoesNotFit(lay, blocks, n + 1, m); }
  }

  /** Drop blocks from the end until the note fits as well. */
  method PopUntilFits<T>(lay: Layout, blocks: seq<string>, shown: seq<T>, pushed: seq<string>, taken: seq<T>)
    returns (parts: seq<string>, included: seq<T>)
    requires Pushed(lay, blocks, shown, pushed, taken) && IsMaximal(lay, blocks, |pushed|)
    ensures Pushed(lay, blocks, shown, parts, included) && |parts| <= |pushed|
    ensures |parts| > 0 ==> FitsWithNote(lay, blocks, |parts|)
    ensures IsMaximal(lay, blocks, |parts|)
  {
    parts, included := pushed, taken;
    PopTest(lay, blocks, shown, parts, included);
    while |parts| > 0 && lay.size(Concat(parts) + lay.note) > lay.budget
      invariant Pushed(lay, blocks, shown, parts, included) && |parts| <= |pushed|
      invariant lay.size(Concat(parts) + lay.note) <= lay.budget <==> FitsWithNote(lay, blocks, |parts|)
      invariant IsMaximal(lay, blocks, |parts|)
    {
      PushedLess(lay, blocks, shown, parts, included);
      parts, included := parts[..|parts| - 1], included[..|included| - 1];
      PopTest(lay, blocks, shown, parts, included);
    }
  }

  /** With `n` of `total` entries shown the body fits; it shows all exactly when all fit, and otherwise
      no more blocks would have fitted together with the note. */
  ghost predicate Packs(lay: Layout, fallback: string, blocks: seq<string>, total: nat, n: nat, body: string) {
    && n <= |blocks| <= total
    && lay.size(body) <= lay.budget
    && (n == total <==> |blocks| == total && Fits(lay, blocks, |blocks|))
    && body == (if n == total then Body(lay, blocks, |blocks|)
                else if n > 0 then Body(lay, blocks, n) + lay.note
                else fallback)
    && (n < total ==> IsMaximal(lay, blocks, n))
  }

  /** Pack the blocks of the `shown` entries, out of `total`. */
  method Pack<T>(lay: Layout, fallback: string, blocks: seq<string>, shown: seq<T>, total: nat)
    returns (body: string, included: seq<T>)
    requires Additive(lay) && |blocks| == |shown| <= total && 0 < total && lay.size(fallback) <= lay.budget
    requires forall i :: 0 <= i < |blocks| ==> blocks[i] != ""
    ensures |included| <= |shown| && included == shown[..|included|]
    ensures Packs(lay, fallback, blocks, total, |included|, body)
  {
    var parts, cut;
    NothingFits(lay, blocks);
    parts, included, cut := PushWhileFits(lay, blocks, shown);
    body := Concat(parts);
    ConcatIsBody(lay, blocks, shown, parts, included);
    if cut || |included| < total {
      AllDoNotFit(lay, blocks, |parts|);
      CutIsMaximal(lay, blocks, |parts|);
      parts, included := PopUntilFits(lay, blocks, shown, parts, included);
      body := Concat(parts);
      ConcatIsBody(lay, blocks, shown, parts, included);
      ShownIsNotEmpty(lay, blocks, |parts|);
      body := if |body| > 0 then body + lay.note else fallback;
    }
  }

  lemma AllDoNotFit(lay: Layout, blocks: seq<string>, n: nat)
    requires Additive(lay) && n <= |blocks| && (n < |blocks| ==> !Fits(lay, blocks, n + 1))
    ensures n < |blocks| ==> !Fits(lay, blocks, |blocks|)
  {
    if n < |blocks| { MoreIsLonger(lay, blocks, n + 1, |blocks|); }
  }

  lemma ShownIsNotEmpty(lay: Layout, blocks: seq<string>, n: nat)
    requires n <= |blocks| && forall i :: 0 <= i < |blocks| ==> blocks[i] != ""
    ensures Body(lay, blocks, n) == "" <==> n == 0
  {
  }
}
