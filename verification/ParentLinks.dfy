/** Run ids, and following parent links upwards through a finite store. */
module ParentLinks {
  import opened Text

  /** `run-`, a letter or digit, then up to 127 letters, digits, dots, underscores or hyphens. */
  predicate ValidRunId(id: string) {
    && 5 <= |id| <= 132 && id[..4] == "run-" && AlphaNumeric(id[4])
    && forall i :: 5 <= i < |id| ==> AlphaNumeric(id[i]) || id[i] in {'.', '_', '-'}
  }

  predicate AlphaNumeric(c: char) {
    'A' <= c <= 'Z' || 'a' <= c <= 'z' || '0' <= c <= '9'
  }

  type Links = map<string, Option<string>>

  /** The run `hops` links above `x`, while there is one. */
  ghost function Climb(links: Links, x: string, hops: nat): Option<string>
    decreases hops
  {
    if hops == 0 then Some(x)
    else if x in links && links[x].Some? then Climb(links, links[x].value, hops - 1)
    else None
  }

  /** The walk from `x` stops after `hops` links at `root`, a known run without a parent. */
  ghost predicate EndsAt(links: Links, x: string, hops: nat, root: string) {
    Climb(links, x, hops) == Some(root) && root in links && links[root].None?
  }

  /** The walk from `x` runs into `gap`, which the store does not hold. */
  ghost predicate BreaksAt(links: Links, x: string, hops: nat, gap: string) {
    Climb(links, x, hops) == Some(gap) && gap !in links
  }

  ghost predicate Dangles(links: Links, x: string) {
    exists hops: nat, gap :: BreaksAt(links, x, hops, gap)
  }

  ghost predicate GoesOnForever(links: Links, x: string) {
    forall hops: nat :: Climb(links, x, hops).Some?
  }

  lemma {:induction false} ClimbAdd(links: Links, x: string, a: nat, b: nat)
    ensures Climb(links, x, a + b) ==
      if Climb(links, x, a).Some? then Climb(links, Climb(links, x, a).value, b) else None
    decreases a
  {
    if a > 0 && x in links && links[x].Some? { ClimbAdd(links, links[x].value, a - 1, b); }
  }

  /** A walk that stops is over: nothing lies above. */
  lemma NothingAbove(links: Links, x: string, hops: nat, top: string, more: nat)
    requires Climb(links, x, hops) == Some(top) && (top !in links || links[top].None?) && more > hops
    ensures Climb(links, x, more) == None
  {
    ClimbAdd(links, x, hops, more - hops);
  }

  /** A walk stops at one place only. */
  lemma StopIsUnique(links: Links, x: string, a: nat, p: string, b: nat, q: string)
    requires Climb(links, x, a) == Some(p) && (p !in links || links[p].None?)
    requires Climb(links, x, b) == Some(q) && (q !in links || links[q].None?)
    ensures a == b && p == q
  {
    if a < b { NothingAbove(links, x, a, p, b); }
    if b < a { NothingAbove(links, x, b, q, a); }
  }

  /** Coming back to a run means never stopping. */
  lemma {:induction false} ReturnIsForever(links: Links, x: string, i: nat, j: nat, hops: nat)
    requires i < j && Climb(links, x, i).Some? && Climb(links, x, i) == Climb(links, x, j)
    ensures Climb(links, x, hops).Some?
    decreases hops
  {
    if hops <= j {
      ClimbAdd(links, x, hops, j - hops);
    } else {
      ClimbAdd(links, x, j, hops - j);
      ClimbAdd(links, x, i, hops - j);
      ReturnIsForever(links, x, i, j, hops - (j - i));
    }
  }

  /** Every link of the smaller store is one of the larger, so its walks are walks of the larger one. */
  lemma {:induction false} ClimbMonotone(small: Links, large: Links, x: string, hops: nat)
    requires forall id :: id in small && small[id].Some? ==> id in large && large[id] == small[id]
    requires Climb(small, x, hops).Some?
    ensures Climb(large, x, hops) == Climb(small, x, hops)
    decreases hops
  {
    if hops > 0 { ClimbMonotone(small, large, small[x].value, hops - 1); }
  }
}
