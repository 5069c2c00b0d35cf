/** Scanning a long text for secrets in overlapping chunks: nothing short enough falls between two chunks. */
module ScanOverlap {
  const SAMPLE := 32_768
  const OVERLAP := 1_024

  /** `content.slice(start, start + sample)`. */
  function Chunk(content: string, start: nat, sample: nat): string
    requires start <= |content|
  {
    if start + sample <= |content| then content[start..start + sample] else content[start..]
  }

  /** The chunk that starts `k` steps in, while there is one. */
  ghost predicate IsChunkStart(content: string, sample: nat, overlap: nat, k: nat)
    requires overlap < sample
  {
    k * (sample - overlap) < |content|
  }

  /** The detector: the reasons it finds in a piece of text. */
  type Detector = string -> set<string>

  ghost predicate FoundInChunk(detect: Detector, content: string, sample: nat, overlap: nat, k: nat, reason: string)
    requires overlap < sample
  {
    IsChunkStart(content, sample, overlap, k) && reason in detect(Chunk(content, k * (sample - overlap), sample))
  }

  /** Step through the text, each chunk overlapping the one before, and gather the reasons. */
  method ScanChunked(detect: Detector, content: string, sample: nat, overlap: nat) returns (reasons: set<string>)
    requires overlap < sample
    ensures forall reason :: reason in reasons <==> exists k: nat :: FoundInChunk(detect, content, sample, overlap, k, reason)
  {
    reasons := {};
    var start := 0;
    ghost var done: nat := 0;
    while start < |content|
      invariant start == done * (sample - overlap)
      invariant forall reason :: reason in reasons <==>
        exists k: nat :: k < done && FoundInChunk(detect, content, sample, overlap, k, reason)
      decreases |content| - start
    {
      var found := detect(Chunk(content, start, sample));
      NextStart(done, sample - overlap);
      forall reason ensures FoundInChunk(detect, content, sample, overlap, done, reason) <==> reason in found {
        assert IsChunkStart(content, sample, overlap, done);
      }
      forall reason
        ensures reason in reasons + found <==>
          exists k: nat :: k < done + 1 && FoundInChunk(detect, content, sample, overlap, k, reason)
      {
        if reason in reasons {
          ghost var k: nat :| k < done && FoundInChunk(detect, content, sample, overlap, k, reason);
          assert k < done + 1;
        }
        assert done < done + 1;
      }
      reasons := reasons + found;
      start := start + (sample - overlap);
      done := done + 1;
    }
    forall k: nat | IsChunkStart(content, sample, overlap, k) ensures k < done {
      if k >= done { StartsGrow(k, done, sample - overlap); }
    }
  }

  lemma NextStart(k: nat, step: nat)
    ensures (k + 1) * step == k * step + step
  {
  }

  lemma StartsGrow(k: nat, done: nat, step: nat)
    requires done <= k
    ensures done * step <= k * step
  {
  }

  /** The piece of text from `i` to `j` lies inside chunk `k`. */
  ghost predicate Covers(content: string, sample: nat, overlap: nat, k: nat, i: nat, j: nat)
    requires overlap < sample
  {
    IsChunkStart(content, sample, overlap, k) && k * (sample - overlap) <= i && j <= k * (sample - overlap) + sample
  }

  /** Every piece at most one character longer than the overlap lies inside one chunk. */
  lemma ShortPiecesAreCovered(content: string, sample: nat, overlap: nat, i: nat, j: nat)
    requires overlap < sample && i < j <= |content| && j - i <= overlap + 1
    ensures exists k: nat :: Covers(content, sample, overlap, k, i, j)
  {
    var step := sample - overlap;
    var k := i / step;
    assert i == k * step + i % step;
    assert Covers(content, sample, overlap, k, i, j);
  }

  /** And the bound is exact: in any text that needs a second chunk, some piece one longer is in none. */
  lemma LongerPieceIsMissed(content: string, sample: nat, overlap: nat, k: nat)
    requires overlap < sample && |content| > sample
    ensures var i, j := sample - overlap - 1, sample + 1;
      0 <= i < j <= |content| && j - i == overlap + 2 && !Covers(content, sample, overlap, k, i, j)
  {
    var step := sample - overlap;
    if k >= 1 { assert k * step >= step; }
  }

  /** The stretch from `l` to `r`, context included, is reported for this reason in any piece that holds it,
      and holds the edges of the text where the stretch touches them. A pattern with word boundaries needs
      one character of context on each side, or the edge. */
  ghost predicate Recognised(detect: Detector, content: string, l: nat, r: nat, reason: string)
    requires l <= r <= |content|
  {
    forall before, after :: (l == 0 ==> before == "") && (r == |content| ==> after == "") ==>
      reason in detect(before + content[l..r] + after)
  }

  /** So a secret the detector recognises is found wherever it stands in the text, if with its context it
      is at most one character longer than the overlap. */
  lemma SecretIsFound(detect: Detector, content: string, sample: nat, overlap: nat, l: nat, r: nat, reason: string)
    requires overlap < sample && l < r <= |content| && r - l <= overlap + 1
    requires Recognised(detect, content, l, r, reason)
    ensures exists k: nat :: FoundInChunk(detect, content, sample, overlap, k, reason)
  {
    ShortPiecesAreCovered(content, sample, overlap, l, r);
    var k: nat :| Covers(content, sample, overlap, k, l, r);
    var start := k * (sample - overlap);
    var before, after := ChunkAround(content, start, sample, l, r);
    assert FoundInChunk(detect, content, sample, overlap, k, reason);
  }

  /** A chunk that holds a stretch is what comes before it in the chunk, the stretch, and what comes after. */
  lemma ChunkAround(content: string, start: nat, sample: nat, l: nat, r: nat) returns (before: string, after: string)
    requires start <= l <= r <= |content| && r <= start + sample
    ensures Chunk(content, start, sample) == before + content[l..r] + after
    ensures (l == 0 ==> before == "") && (r == |content| ==> after == "")
  {
    var end := if start + sample <= |content| then start + sample else |content|;
    before, after := content[start..l], content[r..end];
    SliceInThree(content, start, l, r, end);
  }

  lemma SliceInThree(s: string, a: nat, b: nat, c: nat, d: nat)
    requires a <= b <= c <= d <= |s|
    ensures s[a..d] == s[a..b] + s[b..c] + s[c..d]
  {
    assert s[a..c] == s[a..b] + s[b..c];
  }

  /** Reported for one reason or another in any such piece: what counts where one finding hides another. */
  ghost predicate Suspicious(detect: Detector, content: string, l: nat, r: nat)
    requires l <= r <= |content|
  {
    forall before, after :: (l == 0 ==> before == "") && (r == |content| ==> after == "") ==>
      detect(before + content[l..r] + after) != {}
  }

  lemma SuspectIsMatched(detect: Detector, content: string, sample: nat, overlap: nat, l: nat, r: nat) returns (reason: string)
    requires overlap < sample && l < r <= |content| && r - l <= overlap + 1
    requires Suspicious(detect, content, l, r)
    ensures exists k: nat :: FoundInChunk(detect, content, sample, overlap, k, reason)
  {
    ShortPiecesAreCovered(content, sample, overlap, l, r);
    var k: nat :| Covers(content, sample, overlap, k, l, r);
    var start := k * (sample - overlap);
    var before, after := ChunkAround(content, start, sample, l, r);
    reason :| reason in detect(Chunk(content, start, sample));
    assert FoundInChunk(detect, content, sample, overlap, k, reason);
  }

  /** With the harness's constants: a secret of at most 1023 characters, recognised with one character of
      context or the edge of the text on each side, is always found; and if it is only sure to be suspected
      for some reason, the text is matched. */
  method ScanOutput(detect: Detector, content: string) returns (reasons: set<string>)
    ensures forall i: nat, j: nat, reason :: i < j <= |content| && j - i <= 1023 && RecognisedInContext(detect, content, i, j, reason) ==>
      reason in reasons
    ensures (exists i: nat, j: nat :: i < j <= |content| && j - i <= 1023 && Suspicious(detect, content, Left(i), Right(content, j))) ==>
      reasons != {}
    ensures forall reason :: reason in reasons ==> exists k: nat :: FoundInChunk(detect, content, 32_768, 1_024, k, reason)
  {
    reasons := ScanChunked(detect, content, SAMPLE, OVERLAP);
    forall i: nat, j: nat, reason | i < j <= |content| && j - i <= 1023 && RecognisedInContext(detect, content, i, j, reason)
      ensures reason in reasons
    {
      SecretIsFound(detect, content, SAMPLE, OVERLAP, Left(i), Right(content, j), reason);
    }
    if i: nat, j: nat :| i < j <= |content| && j - i <= 1023 && Suspicious(detect, content, Left(i), Right(content, j)) {
      ghost var reason := SuspectIsMatched(detect, content, SAMPLE, OVERLAP, Left(i), Right(content, j));
      assert reason in reasons;
    }
  }

  function Left(i: nat): (l: nat)
    ensures l <= i
  {
    if i == 0 then 0 else i - 1
  }

  function Right(content: string, j: nat): (r: nat)
    requires j <= |content|
    ensures j <= r <= |content|
  {
    if j < |content| then j + 1 else j
  }

  ghost predicate RecognisedInContext(detect: Detector, content: string, i: nat, j: nat, reason: string)
    requires i < j <= |content|
  {
    Recognised(detect, content, Left(i), Right(content, j), reason)
  }
}
