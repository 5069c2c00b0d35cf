/** Calling the promoter again at once: what the second scan sees, and exactly when it promotes nothing. */
module PromoteTwice {
  import opened Text
  import opened ParentLinks
  import opened PromotedFile
  import opened KnowledgePromoter

  /** A call the promoter carries through to the end. */
  ghost predicate Runs(t: Call) {
    Sane(t.env) && ValidRunId(t.job.runId) && SafeUpto(t, |t.job.candidates|)
  }

  /** The same options once more, over the files the first call left. */
  ghost function Again(t: Call, later: string): Call {
    Call(t.env, t.job.(promotedAt := later), FilesAfter(t, |t.job.candidates|))
  }

  // ----- the files after the first call -----

  ghost predicate WritesTo(t: Call, i: nat, kind: string, name: string) {
    Chosen(t, i) && KindOf(t, i) == kind && NameOf(t, i) == name
  }

  ghost predicate Overwritten(t: Call, n: nat, kind: string, name: string) {
    exists i: nat :: i < n && WritesTo(t, i, kind, name)
  }

  /** What is left of a kind's old files. */
  ghost function Kept(t: Call, n: nat, kind: string): Dir {
    map name | name in DirOf(t.files, kind) && !Overwritten(t, n, kind, name) :: DirOf(t.files, kind)[name]
  }

  lemma {:induction false} WrittenStays(t: Call, n: nat, i: nat)
    requires i < n && Chosen(t, i)
    ensures Lookup(DirOf(FilesAfter(t, n), KindOf(t, i)), NameOf(t, i)) == Some(TextOf(t, i))
    decreases n
  {
    if i < n - 1 {
      WrittenStays(t, n - 1, i);
      if Chosen(t, n - 1) {
        NamesDiffer(t.env, t.job.runId, i, t.job.candidates[i].value.title, n - 1, t.job.candidates[n - 1].value.title);
      }
    }
  }

  lemma {:induction false} OthersStay(t: Call, n: nat, kind: string, name: string)
    requires !Overwritten(t, n, kind, name)
    ensures Lookup(DirOf(FilesAfter(t, n), kind), name) == Lookup(DirOf(t.files, kind), name)
    decreases n
  {
    if n > 0 {
      assert forall i: nat :: i < n - 1 && WritesTo(t, i, kind, name) ==> i < n;
      OthersStay(t, n - 1, kind, name);
      assert !WritesTo(t, n - 1, kind, name);
    }
  }

  lemma ChosenReadsBack(t: Call, i: nat)
    requires Runs(t) && Chosen(t, i)
    ensures KeyIn(t.env, TextOf(t, i)) == Some(KeyOf(t, i))
    ensures HashIn(t.env, TextOf(t, i)) == if LooksNumeric(HashOf(t, i)) then None else Some(HashOf(t, i))
    ensures IsMarkdown(NameOf(t, i))
  {
    PromotedFileReadsBack(t.env, t.job.candidates[i].value, StampOf(t, i));
    NamesAreMarkdown(t.env, t.job.runId, i, t.job.candidates[i].value.title);
  }

  /** A file of the directory after the call is an old one that was kept, or a chosen one. */
  lemma FileAfter(t: Call, n: nat, kind: string, name: string) returns (i: Option<nat>)
    requires name in DirOf(FilesAfter(t, n), kind)
    ensures i.None? ==> name in Kept(t, n, kind) && Kept(t, n, kind)[name] == DirOf(FilesAfter(t, n), kind)[name]
    ensures i.Some? ==> i.value < n && WritesTo(t, i.value, kind, name) && DirOf(FilesAfter(t, n), kind)[name] == TextOf(t, i.value)
  {
    if Overwritten(t, n, kind, name) {
      var k: nat :| k < n && WritesTo(t, k, kind, name);
      WrittenStays(t, n, k);
      i := Some(k);
    } else {
      OthersStay(t, n, kind, name);
      i := None;
    }
  }

  lemma KeptIsThere(t: Call, n: nat, kind: string, name: string)
    requires name in Kept(t, n, kind)
    ensures name in DirOf(FilesAfter(t, n), kind) && DirOf(FilesAfter(t, n), kind)[name] == Kept(t, n, kind)[name]
  {
    OthersStay(t, n, kind, name);
  }

  /** The second scan sees the hashes of the kept files, and of the promoted ones unless they look like numbers. */
  lemma HashesAfter(t: Call, n: nat, kind: string, h: string)
    requires Runs(t)
    ensures HasHash(t.env, DirOf(FilesAfter(t, n), kind), h) <==>
      HasHash(t.env, Kept(t, n, kind), h) || (!LooksNumeric(h) && ChosenBefore(t, kind, h, n))
  {
    var after := DirOf(FilesAfter(t, n), kind);
    if HasHash(t.env, after, h) {
      var name :| CarriesHash(t.env, after, name, h);
      var i := FileAfter(t, n, kind, name);
      if i.None? {
        assert CarriesHash(t.env, Kept(t, n, kind), name, h);
      } else {
        ChosenReadsBack(t, i.value);
      }
    }
    if HasHash(t.env, Kept(t, n, kind), h) {
      var name :| CarriesHash(t.env, Kept(t, n, kind), name, h);
      KeptIsThere(t, n, kind, name);
      assert CarriesHash(t.env, after, name, h);
    }
    if !LooksNumeric(h) && ChosenBefore(t, kind, h, n) {
      var i: nat :| i < n && Chosen(t, i) && KindOf(t, i) == kind && HashOf(t, i) == h;
      ChosenReadsBack(t, i);
      WrittenStays(t, n, i);
      assert CarriesHash(t.env, after, NameOf(t, i), h);
    }
  }

  /** The second scan sees the origins of the kept files and of all promoted ones. */
  lemma KeysAfter(t: Call, n: nat, kind: string, key: (string, real))
    requires Runs(t)
    ensures HasKey(t.env, DirOf(FilesAfter(t, n), kind), key) <==>
      HasKey(t.env, Kept(t, n, kind), key) || ChosenKeyBefore(t, kind, key, n)
  {
    var after := DirOf(FilesAfter(t, n), kind);
    if HasKey(t.env, after, key) {
      var name :| CarriesKey(t.env, after, name, key);
      var i := FileAfter(t, n, kind, name);
      if i.None? {
        assert CarriesKey(t.env, Kept(t, n, kind), name, key);
      } else {
        ChosenReadsBack(t, i.value);
      }
    }
    if HasKey(t.env, Kept(t, n, kind), key) {
      var name :| CarriesKey(t.env, Kept(t, n, kind), name, key);
      KeptIsThere(t, n, kind, name);
      assert CarriesKey(t.env, after, name, key);
    }
    if ChosenKeyBefore(t, kind, key, n) {
      var i: nat :| i < n && Chosen(t, i) && KindOf(t, i) == kind && KeyOf(t, i) == key;
      ChosenReadsBack(t, i);
      WrittenStays(t, n, i);
      assert CarriesKey(t.env, after, NameOf(t, i), key);
    }
  }

  // ----- the second call -----

  /** Skipped by the first call as a duplicate, of either sort. */
  ghost predicate SkippedAsDuplicate(t: Call, i: nat) {
    ReasonFor(t, i) in {Some(DuplicateIndex), Some(DuplicateHash)}
  }

  /** What made it a duplicate will still be read from the files by the next call. */
  ghost predicate Remembered(t: Call, i: nat)
    requires WellFormed(t, i)
  {
    var kept, h := Kept(t, |t.job.candidates|, KindOf(t, i)), HashOf(t, i);
    || HasKey(t.env, kept, KeyOf(t, i))
    || (!t.job.allowDuplicate
        && (HasHash(t.env, kept, h) || (!LooksNumeric(h) && ChosenBefore(t, KindOf(t, i), h, |t.job.candidates|))))
  }

  lemma WantedAgain(t: Call, later: string, i: nat)
    requires Runs(t)
    ensures Wanted(Again(t, later), i) <==>
      Asked(t, i) && !Chosen(t, i) && !HasKey(t.env, Kept(t, |t.job.candidates|, KindOf(t, i)), KeyOf(t, i))
  {
    if Asked(t, i) {
      KeysAfter(t, |t.job.candidates|, KindOf(t, i), KeyOf(t, i));
      if Chosen(t, i) { assert ChosenKeyBefore(t, KindOf(t, i), KeyOf(t, i), |t.job.candidates|); }
    }
  }

  /** Nothing is promoted exactly when every wanted candidate has content that is already on file. */
  lemma NothingChosen(t: Call)
    ensures (forall i: nat :: !Chosen(t, i)) <==>
      forall i: nat :: Wanted(t, i) ==> !t.job.allowDuplicate && HasHash(t.env, DirFor(t, i), HashOf(t, i))
  {
    forall i: nat | Wanted(t, i) && !(!t.job.allowDuplicate && HasHash(t.env, DirFor(t, i), HashOf(t, i)))
      ensures exists k: nat :: Chosen(t, k)
    {
      SomethingChosen(t, i);
    }
  }

  lemma SomethingChosen(t: Call, i: nat)
    requires Wanted(t, i) && (t.job.allowDuplicate || !HasHash(t.env, DirFor(t, i), HashOf(t, i)))
    ensures exists k: nat :: Chosen(t, k)
  {
    if Chosen(t, i) {
    } else {
      var j: nat :| j < i && Wanted(t, j) && SameContent(t, j, i);
      EarlierWantedMeansChosen(t, i, j);
    }
  }

  lemma WantedAgainIffForgotten(t: Call, later: string, i: nat)
    requires Runs(t)
    ensures var t2 := Again(t, later);
      (Wanted(t2, i) ==> !t.job.allowDuplicate && HasHash(t.env, DirFor(t2, i), HashOf(t2, i))) <==>
      (SkippedAsDuplicate(t, i) ==> Remembered(t, i))
  {
    WantedAgain(t, later, i);
    if Asked(t, i) { HashesAfter(t, |t.job.candidates|, KindOf(t, i), HashOf(t, i)); }
  }

  /** An immediate second call promotes nothing if and only if everything the first one skipped as a
      duplicate is still recognisable as one from the files. */
  lemma SecondCallPromotesNothing(t: Call, later: string)
    requires Runs(t)
    ensures (forall i: nat :: !Chosen(Again(t, later), i)) <==>
      forall i: nat :: SkippedAsDuplicate(t, i) ==> Remembered(t, i)
  {
    NothingChosen(Again(t, later));
    forall i: nat
      ensures var t2 := Again(t, later);
        (Wanted(t2, i) ==> !t.job.allowDuplicate && HasHash(t.env, DirFor(t2, i), HashOf(t2, i))) <==>
        (SkippedAsDuplicate(t, i) ==> Remembered(t, i))
    {
      WantedAgainIffForgotten(t, later, i);
    }
  }

  /** No promoted file took the place of an old one. */
  ghost predicate NothingOverwritten(t: Call) {
    forall i: nat :: Chosen(t, i) ==> NameOf(t, i) !in DirFor(t, i)
  }

  /** So, with no file overwritten and no duplicate hash that looks like a number, promotion is idempotent. */
  lemma PromotionIsIdempotent(t: Call, later: string)
    requires Runs(t) && NothingOverwritten(t)
    requires forall i: nat :: ReasonFor(t, i) == Some(DuplicateHash) ==> !LooksNumeric(HashOf(t, i))
    ensures forall i: nat :: !Chosen(Again(t, later), i)
  {
    forall i: nat | SkippedAsDuplicate(t, i) ensures Remembered(t, i) {
      var n := |t.job.candidates|;
      KeptIsAll(t, n, KindOf(t, i));
      if Wanted(t, i) && !HasHash(t.env, DirFor(t, i), HashOf(t, i)) {
        var j: nat :| j < i && Wanted(t, j) && SameContent(t, j, i);
        EarlierWantedMeansChosen(t, i, j);
        var k: nat :| k < i && Chosen(t, k) && SameContent(t, k, i);
        assert ChosenBefore(t, KindOf(t, i), HashOf(t, i), n);
      }
    }
    SecondCallPromotesNothing(t, later);
  }

  lemma KeptIsAll(t: Call, n: nat, kind: string)
    requires NothingOverwritten(t)
    ensures Kept(t, n, kind) == DirOf(t.files, kind)
  {
  }

  /** Two equal candidates whose hash happens to look like a number: the first call promotes one of them,
      and a second call promotes the other. */
  lemma NumericHashIsPromotedTwice(env: Env, c: Candidate, runId: string, reviewer: string, at: string, later: string)
    requires Sane(env) && ValidRunId(runId) && SafeKind(c.kind) && LooksNumeric(env.hash(c))
    ensures var t := Call(env, Job(runId, reviewer, at, None, false, [Some(c), Some(c)], {}), map[]);
      && ReasonFor(t, 0) == None && ReasonFor(t, 1) == Some(DuplicateHash)
      && exists i: nat :: Chosen(Again(t, later), i)
  {
    var t := Call(env, Job(runId, reviewer, at, None, false, [Some(c), Some(c)], {}), map[]);
    assert forall name :: name !in DirOf(t.files, c.kind);
    assert Wanted(t, 0) && Chosen(t, 0) && Wanted(t, 1) && SameContent(t, 0, 1);
    assert SkippedAsDuplicate(t, 1) && !Remembered(t, 1);
    SecondCallPromotesNothing(t, later);
  }
}
