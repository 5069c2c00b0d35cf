/**
 * Promoting knowledge candidates into files: which candidates a call promotes, that every index is
 * accounted for, and exactly when a second call promotes nothing.
 */
module KnowledgePromoter {
  import opened Text
  import opened ParentLinks
  import opened PromotedFile

  /** File name to text, for one kind. */
  type Dir = map<string, string>

  /** The knowledge directory: one sub-directory per kind. */
  type Files = map<string, Dir>

  datatype Job = Job(
    runId: string, reviewer: string, promotedAt: string, kind: Option<string>, allowDuplicate: bool,
    candidates: seq<Option<Candidate>>, rejected: set<int>
  )

  /** One call: the libraries, the options, and the files as they are when it starts. */
  datatype Call = Call(env: Env, job: Job, files: Files)

  datatype Reason = Malformed | KindFilter | IsRejected | DuplicateIndex | DuplicateHash

  datatype Report = Report(promoted: seq<nat>, skipped: seq<(nat, Reason)>)

  datatype PromoteError = InvalidRunId | NoReviewer | UnsafeKind(index: nat)

  function DirOf(files: Files, kind: string): Dir {
    if kind in files then files[kind] else map[]
  }

  // ----- scanning -----

  predicate CarriesHash(env: Env, dir: Dir, name: string, h: string) {
    name in dir && IsMarkdown(name) && HashIn(env, dir[name]) == Some(h)
  }

  predicate CarriesKey(env: Env, dir: Dir, name: string, key: (string, real)) {
    name in dir && IsMarkdown(name) && KeyIn(env, dir[name]) == Some(key)
  }

  /** Some file of the directory carries the hash. */
  ghost predicate HasHash(env: Env, dir: Dir, h: string) {
    exists name :: CarriesHash(env, dir, name, h)
  }

  ghost predicate HasKey(env: Env, dir: Dir, key: (string, real)) {
    exists name :: CarriesKey(env, dir, name, key)
  }

  datatype Scan = Scan(hashes: set<string>, keys: set<(string, real)>)

  method ScanKindDir(env: Env, dir: Dir) returns (scan: Scan)
    ensures forall h :: h in scan.hashes <==> HasHash(env, dir, h)
    ensures forall k :: k in scan.keys <==> HasKey(env, dir, k)
  {
    scan := Scan({}, {});
    var left := dir.Keys;
    while left != {}
      invariant left <= dir.Keys
      invariant forall h :: h in scan.hashes <==> exists name :: name !in left && CarriesHash(env, dir, name, h)
      invariant forall k :: k in scan.keys <==> exists name :: name !in left && CarriesKey(env, dir, name, k)
      decreases left
    {
      var name :| name in left;
      var rest := left - {name};
      if IsMarkdown(name) {
        var hash, key := HashIn(env, dir[name]), KeyIn(env, dir[name]);
        if hash.Some? {
          scan := scan.(hashes := scan.hashes + {hash.value});
        }
        if key.Some? {
          scan := scan.(keys := scan.keys + {key.value});
        }
      }
      forall h ensures h in scan.hashes <==> exists n :: n !in rest && CarriesHash(env, dir, n, h) {
        if CarriesHash(env, dir, name, h) { assert name !in rest; }
      }
      forall k ensures k in scan.keys <==> exists n :: n !in rest && CarriesKey(env, dir, n, k) {
        if CarriesKey(env, dir, name, k) { assert name !in rest; }
      }
      left := rest;
    }
  }

  // ----- which candidates a call promotes -----

  predicate WellFormed(t: Call, i: nat) {
    i < |t.job.candidates| && t.job.candidates[i].Some?
  }

  function KindOf(t: Call, i: nat): string
    requires WellFormed(t, i)
  {
    t.job.candidates[i].value.kind
  }

  function HashOf(t: Call, i: nat): string
    requires WellFormed(t, i)
  {
    t.env.hash(t.job.candidates[i].value)
  }

  function KeyOf(t: Call, i: nat): (string, real) {
    (t.job.runId, i as real)
  }

  function DirFor(t: Call, i: nat): Dir
    requires WellFormed(t, i)
  {
    DirOf(t.files, KindOf(t, i))
  }

  predicate Asked(t: Call, i: nat) {
    WellFormed(t, i) && (t.job.kind.None? || t.job.kind.value == KindOf(t, i)) && i !in t.job.rejected
  }

  /** Asked for, and not promoted from this index before. */
  ghost predicate Wanted(t: Call, i: nat) {
    Asked(t, i) && !HasKey(t.env, DirFor(t, i), KeyOf(t, i))
  }

  predicate SameContent(t: Call, i: nat, j: nat) {
    WellFormed(t, i) && WellFormed(t, j) && KindOf(t, i) == KindOf(t, j) && HashOf(t, i) == HashOf(t, j)
  }

  ghost predicate FirstOfContent(t: Call, i: nat)
    requires WellFormed(t, i)
  {
    !HasHash(t.env, DirFor(t, i), HashOf(t, i)) && forall j: nat :: j < i && Wanted(t, j) ==> !SameContent(t, j, i)
  }

  /** Wanted, and, unless duplicates are allowed, the first of its content. */
  ghost predicate Chosen(t: Call, i: nat) {
    Wanted(t, i) && (t.job.allowDuplicate || FirstOfContent(t, i))
  }

  /** Why a candidate is passed over. */
  ghost function ReasonFor(t: Call, i: nat): Option<Reason> {
    if !WellFormed(t, i) then Some(Malformed)
    else if t.job.kind.Some? && t.job.kind.value != KindOf(t, i) then Some(KindFilter)
    else if i in t.job.rejected then Some(IsRejected)
    else if !Wanted(t, i) then Some(DuplicateIndex)
    else if !Chosen(t, i) then Some(DuplicateHash)
    else None
  }

  ghost function Reasons(t: Call): nat -> Option<Reason> {
    (i: nat) => ReasonFor(t, i)
  }

  /** The report over the first `n` candidates, in order. */
  function ReportOf(reasons: nat -> Option<Reason>, n: nat): Report
    decreases n
  {
    if n == 0 then Report([], []) else Extended(ReportOf(reasons, n - 1), n - 1, reasons(n - 1))
  }

  function Extended(r: Report, i: nat, reason: Option<Reason>): Report {
    if reason.None? then r.(promoted := r.promoted + [i]) else r.(skipped := r.skipped + [(i, reason.value)])
  }

  ghost predicate SafeUpto(t: Call, n: nat) {
    forall j: nat :: j < n && WellFormed(t, j) ==> SafeKind(KindOf(t, j))
  }

  function StampOf(t: Call, i: nat): Stamp
    requires WellFormed(t, i)
  {
    Stamp(t.job.runId, i, t.job.reviewer, t.job.promotedAt, HashOf(t, i))
  }

  function NameOf(t: Call, i: nat): string
    requires WellFormed(t, i)
  {
    FileName(t.env, t.job.runId, i, t.job.candidates[i].value.title)
  }

  function TextOf(t: Call, i: nat): string
    requires WellFormed(t, i)
  {
    Markdown(t.env, t.job.candidates[i].value, StampOf(t, i))
  }

  function WriteFile(files: Files, kind: string, name: string, text: string): Files {
    files[kind := DirOf(files, kind)[name := text]]
  }

  /** The files once the chosen ones below `n` are written. */
  ghost function FilesAfter(t: Call, n: nat): Files
    decreases n
  {
    if n == 0 then t.files
    else if Chosen(t, n - 1) then WriteFile(FilesAfter(t, n - 1), KindOf(t, n - 1), NameOf(t, n - 1), TextOf(t, n - 1))
    else FilesAfter(t, n - 1)
  }

  /** The first well-formed candidate whose kind is not a safe directory name. */
  ghost predicate StopsAt(t: Call, u: nat) {
    WellFormed(t, u) && !SafeKind(KindOf(t, u)) && SafeUpto(t, u)
  }

  /** Every kind was safe, the report is the one the choices make, and the files are those they leave. */
  ghost predicate Completed(t: Call, report: Report, files: Files) {
    && SafeUpto(t, |t.job.candidates|)
    && report == ReportOf(Reasons(t), |t.job.candidates|)
    && files == FilesAfter(t, |t.job.candidates|)
  }

  /** The first unsafe kind is at `u`, and what was chosen before it has been written. */
  ghost predicate StoppedAt(t: Call, u: nat, files: Files) {
    StopsAt(t, u) && files == FilesAfter(t, u)
  }

  // ----- the scan sets follow the choice -----

  /** Without duplicates, an earlier wanted candidate of the same new content means an earlier chosen one. */
  lemma {:induction false} EarlierWantedMeansChosen(t: Call, i: nat, j: nat)
    requires !t.job.allowDuplicate && j < i && Wanted(t, j) && SameContent(t, j, i)
    requires !HasHash(t.env, DirFor(t, i), HashOf(t, i))
    ensures exists k: nat :: k < i && Chosen(t, k) && SameContent(t, k, i)
    decreases j
  {
    if Chosen(t, j) {
    } else {
      var k: nat :| k < j && Wanted(t, k) && SameContent(t, k, j);
      EarlierWantedMeansChosen(t, i, k);
    }
  }

  ghost predicate ChosenBefore(t: Call, kind: string, h: string, n: nat) {
    exists j: nat :: j < n && Chosen(t, j) && KindOf(t, j) == kind && HashOf(t, j) == h
  }

  ghost predicate ChosenKeyBefore(t: Call, kind: string, key: (string, real), n: nat) {
    exists j: nat :: j < n && Chosen(t, j) && KindOf(t, j) == kind && KeyOf(t, j) == key
  }

  /** The in-memory scan of a kind: what its files carried at the start, and what was promoted since. */
  ghost predicate Tracks(t: Call, kind: string, scan: Scan, n: nat) {
    && (forall h :: h in scan.hashes <==> HasHash(t.env, DirOf(t.files, kind), h) || ChosenBefore(t, kind, h, n))
    && (forall k :: k in scan.keys <==> HasKey(t.env, DirOf(t.files, kind), k) || ChosenKeyBefore(t, kind, k, n))
  }

  lemma TrackedKeyDecides(t: Call, i: nat, scan: Scan)
    requires Asked(t, i) && Tracks(t, KindOf(t, i), scan, i)
    ensures KeyOf(t, i) in scan.keys <==> !Wanted(t, i)
  {
  }

  lemma TrackedHashDecides(t: Call, i: nat, scan: Scan)
    requires Wanted(t, i) && !t.job.allowDuplicate && Tracks(t, KindOf(t, i), scan, i)
    ensures HashOf(t, i) in scan.hashes <==> !Chosen(t, i)
  {
    if !HasHash(t.env, DirFor(t, i), HashOf(t, i)) {
      if j: nat :| j < i && Wanted(t, j) && SameContent(t, j, i) {
        EarlierWantedMeansChosen(t, i, j);
        var k: nat :| k < i && Chosen(t, k) && SameContent(t, k, i);
        assert ChosenBefore(t, KindOf(t, i), HashOf(t, i), i);
      }
    }
  }

  lemma TracksUnchosen(t: Call, kind: string, scan: Scan, i: nat)
    requires Tracks(t, kind, scan, i) && (!Chosen(t, i) || KindOf(t, i) != kind)
    ensures Tracks(t, kind, scan, i + 1)
  {
    forall h ensures ChosenBefore(t, kind, h, i + 1) <==> ChosenBefore(t, kind, h, i) {
      if ChosenBefore(t, kind, h, i) {
        var j: nat :| j < i && Chosen(t, j) && KindOf(t, j) == kind && HashOf(t, j) == h;
        assert j < i + 1;
      }
    }
    forall k ensures ChosenKeyBefore(t, kind, k, i + 1) <==> ChosenKeyBefore(t, kind, k, i) {
      if ChosenKeyBefore(t, kind, k, i) {
        var j: nat :| j < i && Chosen(t, j) && KindOf(t, j) == kind && KeyOf(t, j) == k;
        assert j < i + 1;
      }
    }
  }

  lemma TracksChosen(t: Call, scan: Scan, i: nat)
    requires Chosen(t, i) && Tracks(t, KindOf(t, i), scan, i)
    ensures Tracks(t, KindOf(t, i), Scan(scan.hashes + {HashOf(t, i)}, scan.keys + {KeyOf(t, i)}), i + 1)
  {
    var kind := KindOf(t, i);
    forall h ensures ChosenBefore(t, kind, h, i + 1) <==> ChosenBefore(t, kind, h, i) || h == HashOf(t, i) {
      if ChosenBefore(t, kind, h, i) {
        var j: nat :| j < i && Chosen(t, j) && KindOf(t, j) == kind && HashOf(t, j) == h;
        assert j < i + 1;
      }
      assert i < i + 1;
    }
    forall k ensures ChosenKeyBefore(t, kind, k, i + 1) <==> ChosenKeyBefore(t, kind, k, i) || k == KeyOf(t, i) {
      if ChosenKeyBefore(t, kind, k, i) {
        var j: nat :| j < i && Chosen(t, j) && KindOf(t, j) == kind && KeyOf(t, j) == k;
        assert j < i + 1;
      }
      assert i < i + 1;
    }
  }

  // ----- the call -----

  class KnowledgeBase {
    const env: Env
    var files: Files

    constructor (env: Env, files: Files)
      ensures this.env == env && this.files == files
    {
      this.env := env;
      this.files := files;
    }

    /** Promote the chosen candidates in order; an unsafe kind stops the call where it is met. */
    method Promote(job: Job) returns (r: Result<Report, PromoteError>)
      modifies this
      ensures r == Err(InvalidRunId) <==> !ValidRunId(job.runId)
      ensures r == Err(NoReviewer) <==> ValidRunId(job.runId) && IsBlank(job.reviewer)
      ensures r in {Err(InvalidRunId), Err(NoReviewer)} ==> files == old(files)
      ensures r.Ok? ==> Completed(Call(env, job, old(files)), r.value, files)
      ensures r.Err? && r.error.UnsafeKind? ==> StoppedAt(Call(env, job, old(files)), r.error.index, files)
    {
      if !ValidRunId(job.runId) {
        return Err(InvalidRunId);
      }
      if IsBlank(job.reviewer) {
        return Err(NoReviewer);
      }
      r := PromoteAll(job);
    }

    /** The loop over the candidates. */
    method PromoteAll(job: Job) returns (r: Result<Report, PromoteError>)
      modifies this
      ensures r.Ok? ==> Completed(Call(env, job, old(files)), r.value, files)
      ensures r.Err? ==> r.error.UnsafeKind? && StoppedAt(Call(env, job, old(files)), r.error.index, files)
    {
      ghost var t := Call(env, job, files);
      var report := Report([], []);
      var scans: map<string, Scan> := map[];
      for i := 0 to |job.candidates|
        invariant InProgress(t, report, files, scans, i)
      {
        var stopped;
        stopped, report, scans := PromoteOne(job, i, report, scans, t);
        if stopped {
          return Err(UnsafeKind(i));
        }
      }
      r := Ok(report);
    }

    /** One candidate: write its file unless there is a reason not to. */
    method PromoteOne(job: Job, i: nat, report: Report, scans: map<string, Scan>, ghost t: Call)
      returns (stopped: bool, reported: Report, scanned: map<string, Scan>)
      requires i < |job.candidates| && t.env == env && t.job == job && InProgress(t, report, files, scans, i)
      modifies this
      ensures stopped ==> StoppedAt(t, i, files)
      ensures !stopped ==> InProgress(t, reported, files, scanned, i + 1)
    {
      if job.candidates[i].Some? && !SafeKind(job.candidates[i].value.kind) {
        return true, report, scans;
      }
      var reason;
      reason, scanned := WriteUnless(job, i, scans, t);
      ProgressStep(t, report, reason, files, scanned, i);
      stopped, reported := false, Extended(report, i, reason);
    }

    method WriteUnless(job: Job, i: nat, scans: map<string, Scan>, ghost t: Call) returns (reason: Option<Reason>, scanned: map<string, Scan>)
      requires i < |job.candidates| && t.env == env && t.job == job && Ready(t, files, scans, i)
      modifies this
      ensures reason == Reasons(t)(i) && Ready(t, files, scanned, i + 1)
    {
      reason, scanned := Judge(job, i, scans, t);
      if reason.Some? {
        SkipStep(t, i, files, scanned);
        return;
      }
      var c := job.candidates[i].value;
      var hash := env.hash(c);
      ChosenStep(t, i, files, scanned);
      files := WriteFile(files, c.kind, FileName(env, job.runId, i, c.title),
                         Markdown(env, c, Stamp(job.runId, i, job.reviewer, job.promotedAt, hash)));
      scanned := Noted(scanned, c.kind, hash, (job.runId, i as real));
    }

    /** The checks on one candidate, in order, scanning its kind's files the first time they are needed. */
    method Judge(job: Job, i: nat, scans: map<string, Scan>, ghost t: Call) returns (reason: Option<Reason>, scanned: map<string, Scan>)
      requires i < |job.candidates| && t.env == env && t.job == job && Ready(t, files, scans, i)
      ensures reason == ReasonFor(t, i) && Ready(t, files, scanned, i)
      ensures reason.None? ==> KindOf(t, i) in scanned
    {
      scanned := scans;
      if job.candidates[i].None? {
        return Some(Malformed), scanned;
      }
      var c := job.candidates[i].value;
      if job.kind.Some? && c.kind != job.kind.value {
        return Some(KindFilter), scanned;
      }
      if i in job.rejected {
        return Some(IsRejected), scanned;
      }
      if c.kind !in scanned {
        var scan := ScanKindDir(env, DirOf(files, c.kind));
        FirstScanTracks(t, c.kind, scan, i);
        scanned := scanned[c.kind := scan];
      }
      TrackedKeyDecides(t, i, scanned[c.kind]);
      if (job.runId, i as real) in scanned[c.kind].keys {
        return Some(DuplicateIndex), scanned;
      }
      if !job.allowDuplicate { TrackedHashDecides(t, i, scanned[c.kind]); }
      if env.hash(c) in scanned[c.kind].hashes && !job.allowDuplicate {
        return Some(DuplicateHash), scanned;
      }
      reason := None;
    }
  }

  function Noted(scans: map<string, Scan>, kind: string, hash: string, key: (string, real)): map<string, Scan>
    requires kind in scans
  {
    scans[kind := Scan(scans[kind].hashes + {hash}, scans[kind].keys + {key})]
  }

  /** The files are those of the first `i` choices; every scan made so far is current, and the directory
      of a kind not scanned yet is as it was. */
  ghost predicate Ready(t: Call, files: Files, scans: map<string, Scan>, i: nat) {
    && files == FilesAfter(t, i)
    && (forall kind :: kind in scans ==> Tracks(t, kind, scans[kind], i))
    && (forall kind :: kind !in scans ==> DirOf(files, kind) == DirOf(t.files, kind) && Untouched(t, kind, i))
  }

  /** The loop has gone through the first `i` candidates. */
  ghost predicate InProgress(t: Call, report: Report, files: Files, scans: map<string, Scan>, i: nat) {
    SafeUpto(t, i) && report == ReportOf(Reasons(t), i) && Ready(t, files, scans, i)
  }

  lemma ProgressStep(t: Call, report: Report, reason: Option<Reason>, files: Files, scans: map<string, Scan>, i: nat)
    requires SafeUpto(t, i) && (WellFormed(t, i) ==> SafeKind(KindOf(t, i)))
    requires report == ReportOf(Reasons(t), i) && reason == Reasons(t)(i) && Ready(t, files, scans, i + 1)
    ensures InProgress(t, Extended(report, i, reason), files, scans, i + 1)
  {
  }

  ghost predicate Untouched(t: Call, kind: string, n: nat) {
    forall j: nat :: j < n && Chosen(t, j) ==> KindOf(t, j) != kind
  }

  lemma FirstScanTracks(t: Call, kind: string, scan: Scan, i: nat)
    requires forall h :: h in scan.hashes <==> HasHash(t.env, DirOf(t.files, kind), h)
    requires forall k :: k in scan.keys <==> HasKey(t.env, DirOf(t.files, kind), k)
    requires Untouched(t, kind, i)
    ensures Tracks(t, kind, scan, i)
  {
  }

  lemma SkipStep(t: Call, i: nat, files: Files, scans: map<string, Scan>)
    requires !Chosen(t, i) && Ready(t, files, scans, i)
    ensures Ready(t, files, scans, i + 1)
  {
    forall kind | kind in scans ensures Tracks(t, kind, scans[kind], i + 1) { TracksUnchosen(t, kind, scans[kind], i); }
  }

  lemma ChosenStep(t: Call, i: nat, files: Files, scans: map<string, Scan>)
    requires Chosen(t, i) && KindOf(t, i) in scans && Ready(t, files, scans, i)
    ensures Ready(t, WriteFile(files, KindOf(t, i), NameOf(t, i), TextOf(t, i)), Noted(scans, KindOf(t, i), HashOf(t, i), KeyOf(t, i)), i + 1)
  {
    var after := Noted(scans, KindOf(t, i), HashOf(t, i), KeyOf(t, i));
    TracksChosen(t, scans[KindOf(t, i)], i);
    forall kind | kind in after ensures Tracks(t, kind, after[kind], i + 1) {
      if kind != KindOf(t, i) { TracksUnchosen(t, kind, scans[kind], i); }
    }
  }

  // ----- every index once, no content twice -----

  /** How often an index is reported. */
  function TimesPromoted(promoted: seq<nat>, i: nat): nat {
    if promoted == [] then 0
    else TimesPromoted(promoted[..|promoted| - 1], i) + (if promoted[|promoted| - 1] == i then 1 else 0)
  }

  function TimesSkipped(skipped: seq<(nat, Reason)>, i: nat): nat {
    if skipped == [] then 0
    else TimesSkipped(skipped[..|skipped| - 1], i) + (if skipped[|skipped| - 1].0 == i then 1 else 0)
  }

  function TimesReported(r: Report, i: nat): nat {
    TimesPromoted(r.promoted, i) + TimesSkipped(r.skipped, i)
  }

  lemma ReportedOnceMore(r: Report, n: nat, reason: Option<Reason>, i: nat)
    ensures TimesReported(Extended(r, n, reason), i) == TimesReported(r, i) + (if i == n then 1 else 0)
  {
    if reason.None? {
      assert (r.promoted + [n])[..|r.promoted|] == r.promoted;
    } else {
      assert (r.skipped + [(n, reason.value)])[..|r.skipped|] == r.skipped;
    }
  }

  /** Every candidate index is reported exactly once, as promoted or as skipped, and no other index is. */
  lemma {:induction false} EveryIndexOnce(reasons: nat -> Option<Reason>, n: nat, i: nat)
    ensures TimesReported(ReportOf(reasons, n), i) == if i < n then 1 else 0
    decreases n
  {
    if n > 0 {
      EveryIndexOnce(reasons, n - 1, i);
      ReportedOnceMore(ReportOf(reasons, n - 1), n - 1, reasons(n - 1), i);
    }
  }

  lemma {:induction false} PromotedWithoutReason(reasons: nat -> Option<Reason>, n: nat, i: nat)
    ensures i in ReportOf(reasons, n).promoted <==> i < n && reasons(i).None?
    decreases n
  {
    if n > 0 { PromotedWithoutReason(reasons, n - 1, i); }
  }

  lemma {:induction false} SkippedWithReason(reasons: nat -> Option<Reason>, n: nat, i: nat, reason: Reason)
    ensures (i, reason) in ReportOf(reasons, n).skipped <==> i < n && reasons(i) == Some(reason)
    decreases n
  {
    if n > 0 { SkippedWithReason(reasons, n - 1, i, reason); }
  }

  /** Unless duplicates are allowed, no two promoted candidates of one kind have the same hash, and none
      has the hash of a file that was there. */
  lemma NoContentTwice(t: Call, n: nat, i: nat, j: nat)
    requires !t.job.allowDuplicate
    requires i in ReportOf(Reasons(t), n).promoted && j in ReportOf(Reasons(t), n).promoted
    ensures Chosen(t, i) && Chosen(t, j)
    ensures i != j ==> !SameContent(t, i, j)
    ensures !HasHash(t.env, DirFor(t, i), HashOf(t, i))
  {
    PromotedWithoutReason(Reasons(t), n, i);
    PromotedWithoutReason(Reasons(t), n, j);
    assert Reasons(t)(i) == ReasonFor(t, i) && Reasons(t)(j) == ReasonFor(t, j);
  }
}
