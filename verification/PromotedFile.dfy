/** One promoted candidate as a file: its name, its text, and what a later scan reads out of it. */
module PromotedFile {
  import opened Text
  import opened Frontmatter
  import opened ParentLinks

  datatype Candidate = Candidate(
    kind: string, domain: string, title: string, content: string, evidence: seq<string>, confidence: string, status: string
  )

  datatype Stamp = Stamp(runId: string, index: nat, reviewer: string, promotedAt: string, hash: string)

  /** A YAML scalar, typed as the core schema types it. */
  datatype Scalar = Str(text: string) | Num(value: real) | Other

  /** The libraries the promoter leans on. */
  datatype Env = Env(
    yaml: seq<string> -> Option<map<string, Scalar>>,
    quote: string -> string,
    hash: Candidate -> string,
    slug: string -> string
  )

  predicate OneLine(s: string) {
    '\n' !in s && '\r' !in s
  }

  predicate IsDigit(c: char) {
    '0' <= c <= '9'
  }

  /** Sixteen lower-case hexadecimal digits. */
  predicate IsHash(s: string) {
    |s| == 16 && forall i :: 0 <= i < |s| ==> IsDigit(s[i]) || 'a' <= s[i] <= 'f'
  }

  predicate AllDigits(s: string) {
    s != "" && forall i :: 0 <= i < |s| ==> IsDigit(s[i])
  }

  /** Digits, or digits `e` digits: what section 10.3.2 of YAML 1.2.2 resolves to a number among the
      strings a hash can be. */
  predicate LooksNumeric(s: string) {
    AllDigits(s) || exists i :: 0 <= i < |s| && s[i] == 'e' && AllDigits(s[..i]) && AllDigits(s[i + 1..])
  }

  // ----- decimal numbers -----

  function Digit(d: nat): char
    requires d < 10
  {
    "0123456789"[d]
  }

  function Decimal(n: nat): (s: string)
    ensures AllDigits(s)
  {
    if n < 10 then [Digit(n)] else Decimal(n / 10) + [Digit(n % 10)]
  }

  function ValueOf(s: string): nat
    requires forall i :: 0 <= i < |s| ==> IsDigit(s[i])
  {
    if s == "" then 0
    else
      assert IsDigit(s[|s| - 1]);
      10 * ValueOf(s[..|s| - 1]) + (s[|s| - 1] as int - '0' as int)
  }

  lemma {:induction false} DecimalValue(n: nat)
    ensures ValueOf(Decimal(n)) == n
  {
    if n >= 10 {
      DecimalValue(n / 10);
      assert Decimal(n)[..|Decimal(n)| - 1] == Decimal(n / 10);
    } else {
      assert Decimal(n)[..0] == "";
    }
  }

  /** `String(n).padStart(2, "0")`. */
  function Padded(n: nat): (s: string)
    ensures AllDigits(s)
  {
    if |Decimal(n)| < 2 then ['0'] + Decimal(n) else Decimal(n)
  }

  lemma PaddedValue(n: nat)
    ensures ValueOf(Padded(n)) == n
  {
    DecimalValue(n);
    if |Decimal(n)| < 2 {
      var s := Padded(n);
      assert s[..1] == "0" && s[..1][..0] == "" && Decimal(n)[..0] == "";
    }
  }

  // ----- the file name -----

  function FileName(env: Env, runId: string, index: nat, title: string): string {
    runId + ("-" + (Padded(index) + ("-" + (env.slug(title) + ".md"))))
  }

  /** Where the digits at the start of a text end. */
  function DigitsLength(s: string): (n: nat)
    ensures n <= |s|
  {
    if s != "" && IsDigit(s[0]) then 1 + DigitsLength(s[1..]) else 0
  }

  lemma {:induction false} DigitsEndAtHyphen(a: string, x: string)
    requires forall i :: 0 <= i < |a| ==> IsDigit(a[i])
    ensures DigitsLength(a + ("-" + x)) == |a|
  {
    if a != "" {
      DigitsEndAtHyphen(a[1..], x);
      assert (a + ("-" + x))[1..] == a[1..] + ("-" + x);
    }
  }

  /** Two candidates of one run never share a file name. */
  lemma NamesDiffer(env: Env, runId: string, i: nat, a: string, j: nat, b: string)
    requires i != j
    ensures FileName(env, runId, i, a) != FileName(env, runId, j, b)
  {
    IndexInName(env, runId, i, a);
    IndexInName(env, runId, j, b);
  }

  /** The index of a promoted file can be read off its name once the run is known. */
  lemma IndexInName(env: Env, runId: string, index: nat, title: string)
    ensures var rest := FileName(env, runId, index, title)[|runId| + 1..];
      && rest[..DigitsLength(rest)] == Padded(index)
      && ValueOf(Padded(index)) == index
  {
    PaddedValue(index);
    var tail := env.slug(title) + ".md";
    DigitsEndAtHyphen(Padded(index), tail);
    assert FileName(env, runId, index, title)[|runId| + 1..] == Padded(index) + ("-" + tail);
  }

  predicate IsMarkdown(name: string) {
    |name| >= 3 && name[|name| - 3..] == ".md"
  }

  lemma NamesAreMarkdown(env: Env, runId: string, index: nat, title: string)
    ensures IsMarkdown(FileName(env, runId, index, title))
  {
    var head := runId + ("-" + (Padded(index) + ("-" + env.slug(title))));
    assert FileName(env, runId, index, title) == head + ".md";
  }

  // ----- the text -----

  /** A directory segment: a letter, then up to 63 letters, digits, underscores or hyphens. */
  predicate SafeKind(kind: string) {
    && 1 <= |kind| <= 64 && AlphaNumeric(kind[0]) && !IsDigit(kind[0])
    && forall i :: 0 <= i < |kind| ==> AlphaNumeric(kind[i]) || kind[i] in {'_', '-'}
  }

  lemma SafeKindMeans(kind: string)
    ensures SafeKind(kind) <==>
      && kind != "" && |kind| < 65 && ('A' <= kind[0] <= 'Z' || 'a' <= kind[0] <= 'z')
      && forall i :: 0 <= i < |kind| ==>
           'A' <= kind[i] <= 'Z' || 'a' <= kind[i] <= 'z' || '0' <= kind[i] <= '9' || kind[i] == '_' || kind[i] == '-'
  {
  }

  function Fields(env: Env, c: Candidate, m: Stamp): seq<(string, string)> {
    [ ("kind", c.kind),
      ("domain", env.quote(c.domain)),
      ("title", env.quote(c.title)),
      ("source_run", m.runId),
      ("source_index", Decimal(m.index)),
      ("confidence", env.quote(c.confidence)),
      ("source_status", env.quote(c.status)),
      ("promoted_by", env.quote(m.reviewer)),
      ("promoted_at", env.quote(m.promotedAt)),
      ("deprecated", "false"),
      ("hash", m.hash) ]
  }

  function AsLines(fields: seq<(string, string)>): seq<string> {
    seq(|fields|, i requires 0 <= i < |fields| => fields[i].0 + ": " + fields[i].1)
  }

  function FrontLines(env: Env, c: Candidate, m: Stamp): seq<string> {
    AsLines(Fields(env, c, m))
  }

  function BodyText(c: Candidate): string {
    var evidence := Join(c.evidence, ", ");
    Join(["", "# " + c.title, "", "Evidence: " + (if evidence == "" then "(none)" else evidence), "", "## Content", "", c.content, ""], "\n")
  }

  function Markdown(env: Env, c: Candidate, m: Stamp): string {
    Written(FrontLines(env, c, m), BodyText(c))
  }

  ghost predicate Writable(c: Candidate, m: Stamp) {
    SafeKind(c.kind) && ValidRunId(m.runId) && IsHash(m.hash)
  }

  /** A field's name: lower-case letters and underscores. */
  predicate IsName(key: string) {
    key != "" && forall i :: 0 <= i < |key| ==> 'a' <= key[i] <= 'z' || key[i] == '_'
  }

  /** A value written without quotes: letters, digits, underscores, hyphens and dots. */
  predicate IsPlainValue(value: string) {
    value != "" && AlphaNumeric(value[0]) && forall i :: 0 <= i < |value| ==> AlphaNumeric(value[i]) || value[i] in {'_', '-', '.'}
  }

  /** Distinct names, and values that are plain or quoted. */
  ghost predicate IsMapping(env: Env, fields: seq<(string, string)>) {
    && (forall i :: 0 <= i < |fields| ==> IsName(fields[i].0))
    && (forall i :: 0 <= i < |fields| ==> IsPlainValue(fields[i].1) || exists s :: fields[i].1 == env.quote(s))
    && (forall i, j :: 0 <= i < j < |fields| ==> fields[i].0 != fields[j].0)
  }

  /** What YAML reads for a value: what was quoted, the number for digits, some number for what looks like
      one, and the text itself for run ids and other hashes. Numbers are not rounded. */
  ghost predicate ReadAs(env: Env, value: string, x: Scalar) {
    && (forall s :: value == env.quote(s) ==> x == Str(s))
    && (AllDigits(value) ==> x == Num(ValueOf(value) as real))
    && (LooksNumeric(value) ==> x.Num?)
    && (ValidRunId(value) || (IsHash(value) && !LooksNumeric(value)) ==> x == Str(value))
  }

  ghost predicate ReadsFields(env: Env, fields: seq<(string, string)>, fm: Option<map<string, Scalar>>) {
    fm.Some? && forall i :: 0 <= i < |fields| ==> fields[i].0 in fm.value && ReadAs(env, fields[i].1, fm.value[fields[i].0])
  }

  /** What is asked of the libraries: quoting gives one line, hashes are sixteen hexadecimal digits, and
      YAML reads a list of fields as its core schema says. */
  ghost predicate Sane(env: Env) {
    && (forall s :: OneLine(env.quote(s)))
    && (forall c :: IsHash(env.hash(c)))
    && (forall fields :: IsMapping(env, fields) ==> ReadsFields(env, fields, env.yaml(AsLines(fields))))
  }

  ghost predicate ReadsPlain(fm: Option<map<string, Scalar>>, m: Stamp) {
    && fm.Some?
    && Lookup(fm.value, "source_run") == Some(Str(m.runId))
    && Lookup(fm.value, "source_index") == Some(Num(m.index as real))
    && "hash" in fm.value
    && (if LooksNumeric(m.hash) then fm.value["hash"].Num? else fm.value["hash"] == Str(m.hash))
  }

  ghost predicate ReadsQuoted(fm: map<string, Scalar>, c: Candidate, m: Stamp) {
    && Lookup(fm, "domain") == Some(Str(c.domain)) && Lookup(fm, "title") == Some(Str(c.title))
    && Lookup(fm, "confidence") == Some(Str(c.confidence)) && Lookup(fm, "source_status") == Some(Str(c.status))
    && Lookup(fm, "promoted_by") == Some(Str(m.reviewer)) && Lookup(fm, "promoted_at") == Some(Str(m.promotedAt))
  }

  /** A key starts with something that is neither white nor a dash. */
  predicate IsKey(key: string) {
    key != "" && !IsWhite(key[0]) && key[0] != '-' && OneLine(key)
  }

  lemma KeyLine(key: string, value: string)
    requires IsKey(key) && OneLine(value)
    ensures IsFrontLine(key + ": " + value)
  {
    var line := key + ": " + value;
    assert TrimLeft(line) == line && TrimRight(line) == line[..|TrimRight(line)|];
    assert line[0] != DASHES[0];
  }

  lemma CandidateKeys()
    ensures IsName("kind") && IsName("domain") && IsName("title") && IsName("hash")
  {
  }

  lemma SourceKeys()
    ensures IsName("source_run") && IsName("source_index") && IsName("source_status")
  {
  }

  lemma PromotionKeys()
    ensures IsName("promoted_by") && IsName("promoted_at") && IsName("deprecated") && IsName("confidence")
  {
  }

  lemma NameIsKey(key: string)
    requires IsName(key)
    ensures IsKey(key)
  {
    assert 'a' <= key[0] <= 'z' || key[0] == '_';
  }

  lemma PlainIsOneLine(s: string)
    requires forall i :: 0 <= i < |s| ==> AlphaNumeric(s[i]) || s[i] in {'_', '-', '.'}
    ensures OneLine(s)
  {
  }

  lemma PlainFields(env: Env, c: Candidate, m: Stamp)
    requires Writable(c, m)
    ensures IsPlainValue(c.kind) && IsPlainValue(m.runId) && IsPlainValue(Decimal(m.index)) && IsPlainValue("false") && IsPlainValue(m.hash)
  {
    RunIdIsPlain(m.runId);
    assert m.runId[0] == m.runId[..4][0] == 'r';
  }

  /** The names of the fields, in order. */
  function Names(): seq<string> {
    ["kind", "domain", "title", "source_run", "source_index", "confidence", "source_status", "promoted_by", "promoted_at",
     "deprecated", "hash"]
  }

  lemma NamesAreDistinct()
    ensures forall i, j :: 0 <= i < j < |Names()| ==> Names()[i] != Names()[j]
    ensures forall i :: 0 <= i < |Names()| ==> IsName(Names()[i])
  {
    CandidateKeys();
    SourceKeys();
    PromotionKeys();
    var names := Names();
    assert names[0][0] == 'k' && names[10][0] == 'h';
    assert names[3][0] == 's' && names[5][0] == 'c' && names[9][0] == 'd';
    assert names[7][9] == 'b' && names[8][9] == 'a';
  }

  lemma FieldsAreMapping(env: Env, c: Candidate, m: Stamp)
    requires Writable(c, m)
    ensures IsMapping(env, Fields(env, c, m))
  {
    NamesAreDistinct();
    PlainFields(env, c, m);
    var fields := Fields(env, c, m);
    assert forall i :: 0 <= i < |fields| ==> fields[i].0 == Names()[i];
  }

  lemma FieldsAreClean(env: Env, c: Candidate, m: Stamp)
    requires Sane(env) && Writable(c, m)
    ensures forall i :: 0 <= i < |Fields(env, c, m)| ==> IsKey(Fields(env, c, m)[i].0) && OneLine(Fields(env, c, m)[i].1)
  {
    var fields := Fields(env, c, m);
    FieldsAreMapping(env, c, m);
    forall i | 0 <= i < |fields| ensures IsKey(fields[i].0) && OneLine(fields[i].1) {
      NameIsKey(fields[i].0);
      if IsPlainValue(fields[i].1) { PlainIsOneLine(fields[i].1); }
    }
  }

  lemma FieldAt(env: Env, fields: seq<(string, string)>, fm: map<string, Scalar>, i: nat, name: string, value: string)
    requires ReadsFields(env, fields, Some(fm)) && i < |fields| && fields[i] == (name, value)
    ensures name in fm && ReadAs(env, value, fm[name])
  {
  }

  lemma QuotedAt(env: Env, fields: seq<(string, string)>, fm: map<string, Scalar>, i: nat, name: string, text: string)
    requires ReadsFields(env, fields, Some(fm)) && i < |fields| && fields[i] == (name, env.quote(text))
    ensures Lookup(fm, name) == Some(Str(text))
  {
    FieldAt(env, fields, fm, i, name, env.quote(text));
  }

  /** The frontmatter of a promoted file reads back as the candidate's and the promotion's own values. */
  lemma FrontmatterReadsBack(env: Env, c: Candidate, m: Stamp)
    requires Sane(env) && Writable(c, m)
    ensures ReadsPlain(env.yaml(FrontLines(env, c, m)), m)
    ensures ReadsQuoted(env.yaml(FrontLines(env, c, m)).value, c, m)
  {
    FieldsAreRead(env, c, m);
    PlainReadBack(env, Fields(env, c, m), env.yaml(FrontLines(env, c, m)).value, c, m);
    QuotedReadBack(env, Fields(env, c, m), env.yaml(FrontLines(env, c, m)).value, c, m);
  }

  lemma FieldsAreRead(env: Env, c: Candidate, m: Stamp)
    requires Sane(env) && Writable(c, m)
    ensures ReadsFields(env, Fields(env, c, m), env.yaml(FrontLines(env, c, m)))
  {
    FieldsAreMapping(env, c, m);
  }

  lemma PlainReadBack(env: Env, fields: seq<(string, string)>, fm: map<string, Scalar>, c: Candidate, m: Stamp)
    requires fields == Fields(env, c, m) && ReadsFields(env, fields, Some(fm)) && Writable(c, m)
    ensures ReadsPlain(Some(fm), m)
  {
    FieldAt(env, fields, fm, 3, "source_run", m.runId);
    FieldAt(env, fields, fm, 4, "source_index", Decimal(m.index));
    FieldAt(env, fields, fm, 10, "hash", m.hash);
    DecimalValue(m.index);
  }

  lemma QuotedReadBack(env: Env, fields: seq<(string, string)>, fm: map<string, Scalar>, c: Candidate, m: Stamp)
    requires fields == Fields(env, c, m) && ReadsFields(env, fields, Some(fm))
    ensures ReadsQuoted(fm, c, m)
  {
    QuotedAt(env, fields, fm, 1, "domain", c.domain);
    QuotedAt(env, fields, fm, 2, "title", c.title);
    QuotedAt(env, fields, fm, 5, "confidence", c.confidence);
    QuotedAt(env, fields, fm, 6, "source_status", c.status);
    QuotedAt(env, fields, fm, 7, "promoted_by", m.reviewer);
    QuotedAt(env, fields, fm, 8, "promoted_at", m.promotedAt);
  }

  lemma FrontLinesAreLines(env: Env, c: Candidate, m: Stamp)
    requires Sane(env) && Writable(c, m)
    ensures forall i :: 0 <= i < |FrontLines(env, c, m)| ==> IsFrontLine(FrontLines(env, c, m)[i])
  {
    FieldsAreClean(env, c, m);
    LinesAreLines(Fields(env, c, m));
  }

  lemma LinesAreLines(fields: seq<(string, string)>)
    requires forall i :: 0 <= i < |fields| ==> IsKey(fields[i].0) && OneLine(fields[i].1)
    ensures forall i :: 0 <= i < |AsLines(fields)| ==> IsFrontLine(AsLines(fields)[i])
  {
    forall i | 0 <= i < |fields| ensures IsFrontLine(AsLines(fields)[i]) { KeyLine(fields[i].0, fields[i].1); }
  }

  lemma RunIdIsPlain(id: string)
    requires ValidRunId(id)
    ensures forall i :: 0 <= i < |id| ==> AlphaNumeric(id[i]) || id[i] in {'_', '-', '.'}
  {
    forall i | 0 <= i < 4 ensures AlphaNumeric(id[i]) || id[i] == '-' { assert id[..4][i] == "run-"[i]; }
  }

  // ----- what a scan reads -----

  /** The content hash a file carries, if its frontmatter reads as one. */
  function HashIn(env: Env, md: string): Option<string> {
    var front := Taken(md).front;
    if front.None? then None
    else
      var fm := env.yaml(front.value);
      if fm.Some? && "hash" in fm.value && fm.value["hash"].Str? && IsHash(fm.value["hash"].text)
      then Some(fm.value["hash"].text) else None
  }

  /** The run and index a file was promoted from. */
  function KeyIn(env: Env, md: string): Option<(string, real)> {
    var front := Taken(md).front;
    if front.None? then None
    else
      var fm := env.yaml(front.value);
      if fm.Some? && "source_run" in fm.value && fm.value["source_run"].Str?
        && "source_index" in fm.value && fm.value["source_index"].Num?
      then Some((fm.value["source_run"].text, fm.value["source_index"].value)) else None
  }

  /** A scan takes as a hash only sixteen hexadecimal digits that the frontmatter holds as text. */
  lemma ScannedHash(env: Env, md: string, h: string)
    ensures HashIn(env, md) == Some(h) <==>
      && |h| == 16 && (forall i :: 0 <= i < 16 ==> '0' <= h[i] <= '9' || 'a' <= h[i] <= 'f')
      && Taken(md).front.Some? && env.yaml(Taken(md).front.value).Some?
      && Lookup(env.yaml(Taken(md).front.value).value, "hash") == Some(Str(h))
  {
  }

  /** A scan always recovers where a promoted file came from, and its hash exactly when the hash does not
      look like a number. */
  lemma PromotedFileReadsBack(env: Env, c: Candidate, m: Stamp)
    requires Sane(env) && Writable(c, m)
    ensures KeyIn(env, Markdown(env, c, m)) == Some((m.runId, m.index as real))
    ensures HashIn(env, Markdown(env, c, m)) == if LooksNumeric(m.hash) then None else Some(m.hash)
    ensures Taken(Markdown(env, c, m)).body == BodyText(c) <==> !HoldsCrLf(BodyText(c))
  {
    var front := FrontLines(env, c, m);
    FrontLinesAreLines(env, c, m);
    BodyRoundTrip(front, BodyText(c));
    FrontmatterReadsBack(env, c, m);
  }

  // ----- what the body holds -----

  lemma JoinStep(x: string, rest: seq<string>, sep: string)
    requires rest != []
    ensures Join([x] + rest, sep) == x + (sep + Join(rest, sep))
  {
    assert ([x] + rest)[1..] == rest;
  }

  lemma {:induction false} JoinAppend(a: seq<string>, b: seq<string>, sep: string)
    requires a != [] && b != []
    ensures Join(a + b, sep) == Join(a, sep) + (sep + Join(b, sep))
    decreases |a|
  {
    assert a == [a[0]] + a[1..];
    if |a| == 1 {
      assert a + b == [a[0]] + b;
      JoinStep(a[0], b, sep);
    } else {
      assert a + b == [a[0]] + (a[1..] + b);
      JoinStep(a[0], a[1..] + b, sep);
      JoinAppend(a[1..], b, sep);
      JoinStep(a[0], a[1..], sep);
    }
  }

  lemma JoinThree(x: string, y: string, z: string, sep: string)
    ensures Join([x, y, z], sep) == x + (sep + (y + (sep + z)))
  {
    JoinStep(x, [y, z], sep);
    JoinStep(y, [z], sep);
    assert [x, y, z] == [x] + [y, z] && [y, z] == [y] + [z];
  }

  /** The evidence, or a note that there is none. */
  function EvidenceText(c: Candidate): string {
    if Join(c.evidence, ", ") == "" then "(none)" else Join(c.evidence, ", ")
  }

  /** Three parts: the title as a heading, the evidence, and the content under its own heading. */
  lemma BodyShows(c: Candidate)
    ensures BodyText(c) == ("\n" + ("# " + c.title) + "\n") + (("\n" + ("Evidence: " + EvidenceText(c)) + "\n") + (("\n" + "## Content" + "\n\n") + (c.content + "\n")))
  {
    BodyInThrees("# " + c.title, "Evidence: " + EvidenceText(c), "## Content", c.content);
  }

  lemma BodyInThrees(title: string, evidence: string, heading: string, content: string)
    ensures Join(["", title, "", evidence, "", heading, "", content, ""], "\n") ==
      ("\n" + title + "\n") + (("\n" + evidence + "\n") + (("\n" + heading + "\n\n") + (content + "\n")))
  {
    var a, b, c := ["", title, ""], [evidence, "", heading], ["", content, ""];
    assert ["", title, "", evidence, "", heading, "", content, ""] == a + (b + c);
    JoinAppend(a, b + c, "\n");
    JoinAppend(b, c, "\n");
    JoinThree("", title, "", "\n");
    JoinThree(evidence, "", heading, "\n");
    JoinThree("", content, "", "\n");
    assert "" + ("\n" + (title + ("\n" + ""))) + ("\n" + (evidence + ("\n" + ("" + ("\n" + heading))) + ("\n" + ("" + ("\n" + (content + ("\n" + ""))))))) ==
      ("\n" + title + "\n") + (("\n" + evidence + "\n") + (("\n" + heading + "\n\n") + (content + "\n")));
  }

  lemma {:induction false} UnixConcat(a: string, b: string)
    requires a == "" || a[|a| - 1] != '\r'
    ensures Unix(a + b) == Unix(a) + Unix(b)
    decreases |a|
  {
    if a == "" {
      assert a + b == b;
    } else {
      assert (a + b)[1..] == a[1..] + b;
      UnixConcat(a[1..], b);
    }
  }

  /** What is read back of a promoted file's body: the title, the evidence and the content, each with its line ends as `\n`. */
  lemma PromotedBodyIsRead(env: Env, c: Candidate, m: Stamp)
    requires Sane(env) && Writable(c, m)
    ensures Taken(Markdown(env, c, m)).body ==
      Unix("\n" + ("# " + c.title) + "\n") + (Unix("\n" + ("Evidence: " + EvidenceText(c)) + "\n") + (Unix("\n" + "## Content" + "\n\n") + Unix(c.content + "\n")))
  {
    FrontLinesAreLines(env, c, m);
    WrittenReadsBack(FrontLines(env, c, m), BodyText(c));
    BodyShows(c);
    UnixParts("\n" + ("# " + c.title) + "\n", "\n" + ("Evidence: " + EvidenceText(c)) + "\n", "\n" + "## Content" + "\n\n", c.content + "\n");
  }

  lemma UnixParts(a: string, b: string, c: string, d: string)
    requires forall s :: s in {a, b, c} ==> s != "" && s[|s| - 1] != '\r'
    ensures Unix(a + (b + (c + d))) == Unix(a) + (Unix(b) + (Unix(c) + Unix(d)))
  {
    UnixConcat(a, b + (c + d));
    UnixConcat(b, c + d);
    UnixConcat(c, d);
  }
}
