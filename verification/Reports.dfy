/** The migration report: the size-bounded writer and the independent validator that reads it. */
module Reports {
  import opened Order
  import opened Json

  const MAX_BYTES := 65_536
  const MAX_ISSUES := 1_000
  const REPORT_VERSION := 1

  datatype Option<+T> = None | Some(value: T)

  datatype Issue = Issue(domain: Text, location: Text, code: Text, message: Text, requirement: Text)

  datatype Outcome = Success | Failure

  datatype FailureCode =
    | NoFailure | Argument | InputValidation | SourceValidation | CatalogedIncompatibility
    | StagedValidation | PromotionFailure | ReportEmission

  datatype Paths = Paths(rules: Text, topology: Text, plugins: Text)

  datatype Summary = Summary(
    version: nat, outcome: Outcome, failureCode: FailureCode, issueCount: nat, truncated: bool, completedAt: Text)

  datatype Report = Report(ok: bool, errors: seq<Issue>, generated: Option<Paths>, summary: Summary)

  // The keys of the report.
  const OK: Text := Lit("ok")
  const ERRORS: Text := Lit("errors")
  const GENERATED: Text := Lit("generated")
  const METRICS_SUMMARY: Text := Lit("metrics_summary")
  const VERSION: Text := Lit("version")
  const OUTCOME: Text := Lit("outcome")
  const FAILURE_CODE: Text := Lit("failure_code")
  const ISSUE_COUNT: Text := Lit("issue_count")
  const ISSUES_TRUNCATED: Text := Lit("issues_truncated")
  const COMPLETED_AT: Text := Lit("completed_at")
  const DOMAIN: Text := Lit("domain")
  const LOCATION: Text := Lit("location")
  const CODE: Text := Lit("code")
  const MESSAGE: Text := Lit("message")
  const REQUIREMENT: Text := Lit("requirement")

  // The closed sets of outcomes and failure codes.
  const SUCCESS_TEXT: Text := Lit("success")
  const FAILURE_TEXT: Text := Lit("failure")
  const NONE_TEXT: Text := Lit("none")
  const ARGUMENT_TEXT: Text := Lit("argument")
  const INPUT_VALIDATION_TEXT: Text := Lit("input_validation")
  const SOURCE_VALIDATION_TEXT: Text := Lit("source_validation")
  const CATALOGED_INCOMPATIBILITY_TEXT: Text := Lit("cataloged_incompatibility")
  const STAGED_VALIDATION_TEXT: Text := Lit("staged_validation")
  const PROMOTION_FAILURE_TEXT: Text := Lit("promotion_failure")
  const REPORT_EMISSION_TEXT: Text := Lit("report_emission")

  // ---------------------------------------------------------------------------------------
  // Serialisation
  // ---------------------------------------------------------------------------------------

  function Decimal(n: nat): (d: seq<Byte>)
    ensures 1 <= |d|
    ensures n < 10 ==> |d| == 1
    ensures n < 100 ==> |d| <= 2
    ensures n < 1000 ==> |d| <= 3
    ensures n < 10000 ==> |d| <= 4
  {
    if n < 10 then [48 + n] else Decimal(n / 10) + [48 + n % 10]
  }

  function OutcomeText(o: Outcome): Text {
    match o case Success => SUCCESS_TEXT case Failure => FAILURE_TEXT
  }

  function FailureText(c: FailureCode): (t: Text)
    ensures |t| <= 26
  {
    match c
    case NoFailure => NONE_TEXT
    case Argument => ARGUMENT_TEXT
    case InputValidation => INPUT_VALIDATION_TEXT
    case SourceValidation => SOURCE_VALIDATION_TEXT
    case CatalogedIncompatibility => CATALOGED_INCOMPATIBILITY_TEXT
    case StagedValidation => STAGED_VALIDATION_TEXT
    case PromotionFailure => PROMOTION_FAILURE_TEXT
    case ReportEmission => REPORT_EMISSION_TEXT
  }

  function IssueJson(i: Issue): Value {
    Obj([Field(DOMAIN, Str(i.domain)), Field(LOCATION, Str(i.location)), Field(CODE, Str(i.code)),
         Field(MESSAGE, Str(i.message)), Field(REQUIREMENT, Str(i.requirement))])
  }

  function IssuesJson(issues: seq<Issue>): seq<Value> {
    seq(|issues|, i requires 0 <= i < |issues| => IssueJson(issues[i]))
  }

  function PathsJson(p: Option<Paths>): Value {
    if p.None? then Null
    else Obj([Field(Lit("rules"), Str(p.value.rules)), Field(Lit("topology"), Str(p.value.topology)),
              Field(Lit("plugins"), Str(p.value.plugins))])
  }

  function SummaryJson(s: Summary): Value {
    Obj([Field(VERSION, Num(Decimal(s.version))),
         Field(OUTCOME, Str(OutcomeText(s.outcome))),
         Field(FAILURE_CODE, Str(FailureText(s.failureCode))),
         Field(ISSUE_COUNT, Num(Decimal(s.issueCount))),
         Field(ISSUES_TRUNCATED, Bool(s.truncated)),
         Field(COMPLETED_AT, Str(s.completedAt))])
  }

  function ReportJson(r: Report): Value {
    Obj([Field(OK, Bool(r.ok)), Field(ERRORS, Arr(IssuesJson(r.errors))),
         Field(GENERATED, PathsJson(r.generated)), Field(METRICS_SUMMARY, SummaryJson(r.summary))])
  }

  /** What is written to the report file: one line. */
  function Written(r: Report): seq<Byte> {
    Serialize(Ascii, ReportJson(r)) + [10]
  }

  // ---------------------------------------------------------------------------------------
  // Sizes
  // ---------------------------------------------------------------------------------------

  lemma {:induction false} Sizes4(a: Field, b: Field, c: Field, d: Field)
    ensures FieldSizes(Ascii, [a, b, c, d]) == FieldSize(Ascii, a) + FieldSize(Ascii, b) + FieldSize(Ascii, c) + FieldSize(Ascii, d)
  {
    hide FieldSize;
    assert [a, b, c, d][1..] == [b, c, d] && [b, c, d][1..] == [c, d] && [c, d][1..] == [d] && [d][1..] == [];
    assert FieldSizes(Ascii, [c, d]) == FieldSize(Ascii, c) + FieldSizes(Ascii, [d]);
    assert FieldSizes(Ascii, [b, c, d]) == FieldSize(Ascii, b) + FieldSizes(Ascii, [c, d]);
  }

  lemma {:induction false} Sizes6(a: Field, b: Field, c: Field, d: Field, e: Field, f: Field)
    ensures FieldSizes(Ascii, [a, b, c, d, e, f]) == FieldSize(Ascii, a) + FieldSize(Ascii, b) + FieldSize(Ascii, c)
                                                    + FieldSize(Ascii, d) + FieldSize(Ascii, e) + FieldSize(Ascii, f)
  {
    hide FieldSize;
    assert [a, b, c, d, e, f] == [a, b] + [c, d, e, f];
    FieldSizesSplit(Ascii, [a, b], [c, d, e, f]);
    Sizes4(c, d, e, f);
    assert [a, b][1..] == [b] && [b][1..] == [];
    assert FieldSizes(Ascii, [a, b]) == FieldSize(Ascii, a) + FieldSizes(Ascii, [b]);
  }

  /** Everything in a report but its errors and the truncation flag. */
  function Frame(r: Report): nat {
    |Written(r.(errors := [], summary := r.summary.(truncated := true)))|
  }

  lemma {:induction false} ItemsSnoc(issues: seq<Issue>, i: Issue)
    ensures Size(Ascii, Arr(IssuesJson(issues + [i]))) ==
            Size(Ascii, Arr(IssuesJson(issues))) + Size(Ascii, IssueJson(i)) + (if issues == [] then 0 else 1)
  {
    hide IssueJson;
    var items := IssuesJson(issues);
    assert IssuesJson(issues + [i]) == items + [IssueJson(i)];
    ArraySize(Ascii, items);
    ArraySize(Ascii, items + [IssueJson(i)]);
    ItemSizesSplit(Ascii, items, [IssueJson(i)]);
    assert ItemSizes(Ascii, [IssueJson(i)]) == Size(Ascii, IssueJson(i)) + ItemSizes(Ascii, [IssueJson(i)][1..]);
  }

  lemma {:induction false} ReportSize(r: Report)
    ensures |Written(r)| == 6 + FieldSize(Ascii, Field(OK, Bool(r.ok)))
                            + FieldSize(Ascii, Field(ERRORS, Arr(IssuesJson(r.errors))))
                            + FieldSize(Ascii, Field(GENERATED, PathsJson(r.generated)))
                            + FieldSize(Ascii, Field(METRICS_SUMMARY, SummaryJson(r.summary)))
  {
    hide FieldSize, SummaryJson, PathsJson, IssuesJson;
    var a, b := Field(OK, Bool(r.ok)), Field(ERRORS, Arr(IssuesJson(r.errors)));
    var c, d := Field(GENERATED, PathsJson(r.generated)), Field(METRICS_SUMMARY, SummaryJson(r.summary));
    ObjectSize(Ascii, [a, b, c, d]);
    Sizes4(a, b, c, d);
  }

  lemma {:induction false} SummarySize(s: Summary)
    ensures Size(Ascii, SummaryJson(s)) == Size(Ascii, SummaryJson(s.(truncated := true))) + (if s.truncated then 0 else 1)
  {
    SummaryFields(s);
    SummaryFields(s.(truncated := true));
  }

  lemma {:induction false} SummaryFields(s: Summary)
    ensures Size(Ascii, SummaryJson(s)) == 7
              + FieldSize(Ascii, Field(VERSION, Num(Decimal(s.version))))
              + FieldSize(Ascii, Field(OUTCOME, Str(OutcomeText(s.outcome))))
              + FieldSize(Ascii, Field(FAILURE_CODE, Str(FailureText(s.failureCode))))
              + FieldSize(Ascii, Field(ISSUE_COUNT, Num(Decimal(s.issueCount))))
              + |Quote(Ascii, ISSUES_TRUNCATED)| + 1 + (if s.truncated then 4 else 5)
              + FieldSize(Ascii, Field(COMPLETED_AT, Str(s.completedAt)))
  {
    hide FieldSize, Decimal, OutcomeText, FailureText, Quote;
    var a := Field(VERSION, Num(Decimal(s.version)));
    var b := Field(OUTCOME, Str(OutcomeText(s.outcome)));
    var c := Field(FAILURE_CODE, Str(FailureText(s.failureCode)));
    var d := Field(ISSUE_COUNT, Num(Decimal(s.issueCount)));
    var e := Field(ISSUES_TRUNCATED, Bool(s.truncated));
    var f := Field(COMPLETED_AT, Str(s.completedAt));
    ObjectSize(Ascii, [a, b, c, d, e, f]);
    Sizes6(a, b, c, d, e, f);
    FlagSize(s.truncated);
  }

  lemma {:induction false} FlagSize(b: bool)
    ensures FieldSize(Ascii, Field(ISSUES_TRUNCATED, Bool(b))) ==
            |Quote(Ascii, ISSUES_TRUNCATED)| + 1 + (if b then 4 else 5)
  {}

  /** A report's length is its frame, one more byte for the longer `false`, and its errors. */
  lemma {:induction false} WrittenSize(r: Report)
    ensures |Written(r)| == Frame(r) + (if r.summary.truncated then 0 else 1) + Size(Ascii, Arr(IssuesJson(r.errors))) - 2
  {
    hide SummaryJson, PathsJson, Quote;
    var bare := r.(errors := [], summary := r.summary.(truncated := true));
    ReportSize(r);
    ReportSize(bare);
    SummarySize(r.summary);
    ArraySize(Ascii, []);
    assert IssuesJson([]) == [];
  }

  lemma {:induction false} IssueKeysArePlain()
    ensures Plain(DOMAIN) && Plain(LOCATION) && Plain(CODE) && Plain(MESSAGE) && Plain(REQUIREMENT)
  {}

  /** An issue is its texts and 67 bytes around them. */
  lemma {:induction false} IssueSizeOf(i: Issue)
    ensures Size(Ascii, IssueJson(i)) == 67 + |Chars(Ascii, i.domain)| + |Chars(Ascii, i.location)| + |Chars(Ascii, i.code)|
                                            + |Chars(Ascii, i.message)| + |Chars(Ascii, i.requirement)|
  {
    hide Chars, Plain;
    var a, b := Field(DOMAIN, Str(i.domain)), Field(LOCATION, Str(i.location));
    var c, d := Field(CODE, Str(i.code)), Field(MESSAGE, Str(i.message));
    var e := Field(REQUIREMENT, Str(i.requirement));
    ObjectSize(Ascii, [a, b, c, d, e]);
    assert [a, b, c, d, e] == [a, b, c, d] + [e];
    FieldSizesSplit(Ascii, [a, b, c, d], [e]);
    Sizes4(a, b, c, d);
    assert [e][1..] == [];
    assert FieldSizes(Ascii, [e]) == FieldSize(Ascii, e) + FieldSizes(Ascii, []);
    IssueKeysArePlain();
    PlainLength(DOMAIN);
    PlainLength(LOCATION);
    PlainLength(CODE);
    PlainLength(MESSAGE);
    PlainLength(REQUIREMENT);
  }

  lemma {:induction false} PlainLength(t: Text)
    requires Plain(t)
    ensures |Chars(Ascii, t)| == |t|
  {
    PlainChars(Ascii, t);
  }

  /** One issue takes at least 67 bytes. */
  lemma {:induction false} IssueSize(i: Issue)
    ensures Size(Ascii, IssueJson(i)) >= 67
  {
    hide *;
    IssueSizeOf(i);
  }

  lemma {:induction false} IssuesSize(issues: seq<Issue>)
    ensures Size(Ascii, Arr(IssuesJson(issues))) >= 1 + 68 * |issues|
  {
    if issues == [] {
      ArraySize(Ascii, []);
      assert IssuesJson([]) == [];
    } else {
      var before, i := issues[..|issues| - 1], issues[|issues| - 1];
      IssuesSize(before);
      assert before + [i] == issues;
      ItemsSnoc(before, i);
      IssueSize(i);
      if before == [] { ArraySize(Ascii, []); assert IssuesJson([]) == []; }
    }
  }

  ghost predicate Plain(t: Text) {
    forall c :: c in t ==> 32 <= c < 127 && c != 34 && c != 92
  }

  lemma {:induction false} PlainSize(key: Text, value: Text)
    requires Plain(key) && Plain(value)
    ensures FieldSize(Ascii, Field(key, Str(value))) == |key| + |value| + 5
  {
    PlainChars(Ascii, key);
    PlainChars(Ascii, value);
  }

  lemma {:induction false} SummaryKeysArePlain()
    ensures Plain(VERSION) && Plain(OUTCOME) && Plain(FAILURE_CODE) && Plain(ISSUE_COUNT)
    ensures Plain(ISSUES_TRUNCATED) && Plain(COMPLETED_AT)
  {}

  lemma {:induction false} ReportKeysArePlain()
    ensures Plain(OK) && Plain(ERRORS) && Plain(GENERATED) && Plain(METRICS_SUMMARY)
  {}

  lemma {:induction false} OutcomeIsPlain(o: Outcome)
    ensures Plain(OutcomeText(o)) && |OutcomeText(o)| == 7
  {}

  lemma {:induction false} FailureTextsArePlain()
    ensures Plain(NONE_TEXT) && Plain(ARGUMENT_TEXT) && Plain(INPUT_VALIDATION_TEXT) && Plain(SOURCE_VALIDATION_TEXT)
  {}

  lemma {:induction false} IncompatibilityIsPlain()
    ensures Plain(CATALOGED_INCOMPATIBILITY_TEXT)
  {}

  lemma {:induction false} LaterFailureTextsArePlain()
    ensures Plain(STAGED_VALIDATION_TEXT) && Plain(PROMOTION_FAILURE_TEXT) && Plain(REPORT_EMISSION_TEXT)
  {}

  lemma {:induction false} FailureIsPlain(c: FailureCode)
    ensures Plain(FailureText(c))
  {
    hide Plain;
    FailureTextsArePlain();
    IncompatibilityIsPlain();
    LaterFailureTextsArePlain();
  }

  lemma {:induction false} NumberSize(key: Text, n: nat)
    requires Plain(key) && n < 10_000
    ensures FieldSize(Ascii, Field(key, Num(Decimal(n)))) <= |key| + 7
  {
    PlainChars(Ascii, key);
  }

  lemma {:induction false} SummaryBound(s: Summary)
    requires 0 <= s.version < 10_000 && s.issueCount < 10_000 && Plain(s.completedAt) && |s.completedAt| <= 32
    ensures Size(Ascii, SummaryJson(s)) <= 250
  {
    hide FieldSize, Plain, Decimal, OutcomeText, FailureText, Quote, SummaryJson;
    SummaryFields(s);
    SummaryKeysArePlain();
    OutcomeIsPlain(s.outcome);
    FailureIsPlain(s.failureCode);
    NumberSize(VERSION, s.version);
    NumberSize(ISSUE_COUNT, s.issueCount);
    PlainSize(OUTCOME, OutcomeText(s.outcome));
    PlainSize(FAILURE_CODE, FailureText(s.failureCode));
    PlainSize(COMPLETED_AT, s.completedAt);
    QuoteSize(ISSUES_TRUNCATED);
  }

  lemma {:induction false} QuoteSize(t: Text)
    requires Plain(t)
    ensures |Quote(Ascii, t)| == |t| + 2
  {
    PlainChars(Ascii, t);
  }

  lemma {:induction false} FailureFrame(r: Report)
    requires r.generated.None? && 0 <= r.summary.version < 10_000 && r.summary.issueCount < 10_000
    requires Plain(r.summary.completedAt) && |r.summary.completedAt| <= 32
    ensures Frame(r) <= 400
  {
    hide Plain, Quote, SummaryJson;
    var bare := r.(errors := [], summary := r.summary.(truncated := true));
    ReportSize(bare);
    SummaryBound(bare.summary);
    ReportKeysArePlain();
    QuoteSize(OK);
    QuoteSize(ERRORS);
    QuoteSize(GENERATED);
    QuoteSize(METRICS_SUMMARY);
    ArraySize(Ascii, []);
    assert IssuesJson([]) == [];
  }

  // ---------------------------------------------------------------------------------------
  // The writer
  // ---------------------------------------------------------------------------------------

  function Min(a: nat, b: nat): nat {
    if a < b then a else b
  }

  /** The report that carries the first `n` issues. */
  function ReportOf(ok: bool, issues: seq<Issue>, generated: Option<Paths>, code: FailureCode, completedAt: Text, n: nat): Report
    requires n <= |issues|
  {
    Report(ok, issues[..n], if ok then generated else None,
           Summary(REPORT_VERSION, if ok then Success else Failure, code, Min(|issues|, MAX_ISSUES), n < |issues|, completedAt))
  }

  /** The length the loop works with: that of the report before the truncation flag is settled. */
  function LoopSize(ok: bool, issues: seq<Issue>, generated: Option<Paths>, code: FailureCode, completedAt: Text, n: nat): nat
    requires n <= |issues|
  {
    var r := ReportOf(ok, issues, generated, code, completedAt, n);
    |Written(r.(summary := r.summary.(truncated := |issues| > MAX_ISSUES)))|
  }

  lemma {:induction false} LoopSizeNext(ok: bool, issues: seq<Issue>, generated: Option<Paths>, code: FailureCode, completedAt: Text, n: nat)
    requires n < |issues|
    ensures LoopSize(ok, issues, generated, code, completedAt, n + 1) ==
            LoopSize(ok, issues, generated, code, completedAt, n) + (if n > 0 then 1 else 0) + Size(Ascii, IssueJson(issues[n]))
  {
    hide Written, IssueJson, IssuesJson;
    var a, b := ReportOf(ok, issues, generated, code, completedAt, n), ReportOf(ok, issues, generated, code, completedAt, n + 1);
    var flag := |issues| > MAX_ISSUES;
    var a', b' := a.(summary := a.summary.(truncated := flag)), b.(summary := b.summary.(truncated := flag));
    WrittenSize(a');
    WrittenSize(b');
    SameFrame(a', b');
    assert issues[..n + 1] == issues[..n] + [issues[n]];
    ItemsSnoc(issues[..n], issues[n]);
  }

  lemma {:induction false} SameFrame(a: Report, b: Report)
    requires a.(errors := [], summary := a.summary.(truncated := true)) == b.(errors := [], summary := b.summary.(truncated := true))
    ensures Frame(a) == Frame(b)
  {}

  /** Settling the flag never lengthens a report that fits: if the loop started with `true`, more
      than 1000 issues were given and fewer than 1000 fit, so it stays `true`. */
  lemma {:induction false} SettlingFits(ok: bool, issues: seq<Issue>, generated: Option<Paths>, code: FailureCode, completedAt: Text, n: nat)
    requires n <= |issues| && (n == 0 || LoopSize(ok, issues, generated, code, completedAt, n) <= MAX_BYTES)
    ensures |Written(ReportOf(ok, issues, generated, code, completedAt, n))| <= LoopSize(ok, issues, generated, code, completedAt, n)
    ensures n <= 963
  {
    hide Written, IssueJson, IssuesJson;
    var r := ReportOf(ok, issues, generated, code, completedAt, n);
    var r' := r.(summary := r.summary.(truncated := |issues| > MAX_ISSUES));
    WrittenSize(r);
    WrittenSize(r');
    SameFrame(r, r');
    IssuesSize(issues[..n]);
    FrameAtLeast(r');
  }

  lemma {:induction false} FrameAtLeast(r: Report)
    ensures Frame(r) >= 40
  {
    hide SummaryJson, PathsJson, Quote;
    var bare := r.(errors := [], summary := r.summary.(truncated := true));
    ReportSize(bare);
    KeyLengths();
  }

  lemma {:induction false} KeyLengths()
    ensures |Quote(Ascii, OK)| == 4 && |Quote(Ascii, ERRORS)| == 8
    ensures |Quote(Ascii, GENERATED)| == 11 && |Quote(Ascii, METRICS_SUMMARY)| == 17
  {
    hide Quote, Plain;
    ReportKeysArePlain();
    QuoteSize(OK);
    QuoteSize(ERRORS);
    QuoteSize(GENERATED);
    QuoteSize(METRICS_SUMMARY);
  }

  /** The report the writer leaves for a list of issues: as many of them as fit, and no more. */
  ghost predicate LeftBy(r: Report, issues: seq<Issue>) {
    var n := |r.errors|;
    && n <= |issues|
    && r == ReportOf(r.ok, issues, r.generated, r.summary.failureCode, r.summary.completedAt, n)
    && (n == 0 || LoopSize(r.ok, issues, r.generated, r.summary.failureCode, r.summary.completedAt, n) <= MAX_BYTES)
    && (n < |issues| ==>
          LoopSize(r.ok, issues, r.generated, r.summary.failureCode, r.summary.completedAt, n + 1) > MAX_BYTES)
  }

  /** Appends issues while the running size stays within the bound, then settles the flag. */
  method BuildReport(ok: bool, issues: seq<Issue>, generated: Option<Paths>, code: FailureCode, completedAt: Text)
    returns (r: Report)
    ensures LeftBy(r, issues) && r.ok == ok && r.generated == (if ok then generated else None)
    ensures r.summary.failureCode == code && r.summary.completedAt == completedAt
    ensures |r.errors| <= |issues| && r.errors == issues[..|r.errors|]
    ensures r.summary.version == 1 && r.summary.outcome == (if ok then Success else Failure)
    ensures r.summary.issueCount == (if |issues| < 1_000 then |issues| else 1_000)
    ensures r.summary.truncated <==> |r.errors| < |issues|
    ensures |r.errors| <= 963
    ensures LoopSize(ok, issues, generated, code, completedAt, 0) <= MAX_BYTES ==> |Written(r)| <= MAX_BYTES
    ensures !ok && Plain(completedAt) && |completedAt| <= 32 ==> |Written(r)| <= MAX_BYTES
  {
    hide Written, IssueJson, LoopSize, ReportOf, LeftBy, Plain;
    var issueCount := Min(|issues|, MAX_ISSUES);
    var summary := Summary(REPORT_VERSION, if ok then Success else Failure, code, issueCount, |issues| > issueCount, completedAt);
    var size := |Written(Report(ok, [], if ok then generated else None, summary))|;
    LoopStarts(ok, issues, generated, code, completedAt);
    var n := 0;
    while n < |issues|
      invariant 0 <= n <= |issues|
      invariant size == LoopSize(ok, issues, generated, code, completedAt, n)
      invariant n == 0 || size <= MAX_BYTES
    {
      var separator := if n > 0 then 1 else 0;
      var errorSize := Size(Ascii, IssueJson(issues[n]));
      LoopSizeNext(ok, issues, generated, code, completedAt, n);
      if size + separator + errorSize > MAX_BYTES { break; }
      size := size + separator + errorSize;
      n := n + 1;
    }
    LoopEnds(ok, issues, generated, code, completedAt, n);
    r := ReportOf(ok, issues, generated, code, completedAt, n);
  }

  lemma {:induction false} LoopStarts(ok: bool, issues: seq<Issue>, generated: Option<Paths>, code: FailureCode, completedAt: Text)
    ensures var summary := Summary(REPORT_VERSION, if ok then Success else Failure, code, Min(|issues|, MAX_ISSUES),
                                   |issues| > Min(|issues|, MAX_ISSUES), completedAt);
            |Written(Report(ok, [], if ok then generated else None, summary))|
              == LoopSize(ok, issues, generated, code, completedAt, 0)
  {
    hide Written;
    assert issues[..0] == [];
  }

  /** What the loop leaves when it stops. */
  lemma {:induction false} LoopEnds(ok: bool, issues: seq<Issue>, generated: Option<Paths>, code: FailureCode, completedAt: Text, n: nat)
    requires n <= |issues| && (n == 0 || LoopSize(ok, issues, generated, code, completedAt, n) <= MAX_BYTES)
    requires n < |issues| ==> LoopSize(ok, issues, generated, code, completedAt, n + 1) > MAX_BYTES
    ensures var r := ReportOf(ok, issues, generated, code, completedAt, n);
            && LeftBy(r, issues) && r.ok == ok && r.generated == (if ok then generated else None)
            && r.errors == issues[..n] && r.summary.version == 1 && r.summary.outcome == (if ok then Success else Failure)
            && r.summary.issueCount == (if |issues| < 1_000 then |issues| else 1_000)
            && (r.summary.truncated <==> |r.errors| < |issues|)
            && r.summary.failureCode == code && r.summary.completedAt == completedAt && |r.errors| <= 963
            && (LoopSize(ok, issues, generated, code, completedAt, 0) <= MAX_BYTES ==> |Written(r)| <= MAX_BYTES)
            && (!ok && Plain(completedAt) && |completedAt| <= 32 ==> |Written(r)| <= MAX_BYTES)
  {
    hide Written, LoopSize, Plain;
    SettlingFits(ok, issues, generated, code, completedAt, n);
    if !ok && Plain(completedAt) && |completedAt| <= 32 { FailureFits(issues, generated, code, completedAt); }
    SamePaths(ok, issues, generated, code, completedAt, n);
    if n < |issues| { SamePaths(ok, issues, generated, code, completedAt, n + 1); }
  }

  /** Only a successful report names generated files. */
  lemma {:induction false} SamePaths(ok: bool, issues: seq<Issue>, generated: Option<Paths>, code: FailureCode, completedAt: Text, n: nat)
    requires n <= |issues|
    ensures var g := if ok then generated else None;
            && ReportOf(ok, issues, generated, code, completedAt, n) == ReportOf(ok, issues, g, code, completedAt, n)
            && LoopSize(ok, issues, generated, code, completedAt, n) == LoopSize(ok, issues, g, code, completedAt, n)
  {
    hide Written;
  }

  /** Two reports left for the same issues with the same outcome are the same. */
  lemma {:induction false} LeftOnce(a: Report, b: Report, issues: seq<Issue>)
    requires LeftBy(a, issues) && LeftBy(b, issues) && a.ok == b.ok && a.generated == b.generated
    requires a.summary.failureCode == b.summary.failureCode && a.summary.completedAt == b.summary.completedAt
    ensures a == b
  {
    hide LoopSize;
    var m, n := |a.errors|, |b.errors|;
    if m < n { LoopGrows(a.ok, issues, a.generated, a.summary.failureCode, a.summary.completedAt, m + 1, n); }
    if n < m { LoopGrows(a.ok, issues, a.generated, a.summary.failureCode, a.summary.completedAt, n + 1, m); }
  }

  lemma {:induction false} LoopGrows(ok: bool, issues: seq<Issue>, generated: Option<Paths>, code: FailureCode, completedAt: Text, m: nat, n: nat)
    requires m <= n <= |issues|
    ensures LoopSize(ok, issues, generated, code, completedAt, m) <= LoopSize(ok, issues, generated, code, completedAt, n)
  {
    hide LoopSize;
    if m < n {
      LoopGrows(ok, issues, generated, code, completedAt, m, n - 1);
      LoopSizeNext(ok, issues, generated, code, completedAt, n - 1);
    }
  }

  /** An empty failure report fits with room to spare. */
  lemma {:induction false} FailureFits(issues: seq<Issue>, generated: Option<Paths>, code: FailureCode, completedAt: Text)
    requires Plain(completedAt) && |completedAt| <= 32
    ensures LoopSize(false, issues, generated, code, completedAt, 0) <= MAX_BYTES
  {
    hide Written, Plain;
    var r := ReportOf(false, issues, generated, code, completedAt, 0);
    var r' := r.(summary := r.summary.(truncated := |issues| > MAX_ISSUES));
    FailureFrame(r');
    WrittenSize(r');
    assert r'.errors == [] && IssuesJson([]) == [];
    ArraySize(Ascii, []);
  }

  // ---------------------------------------------------------------------------------------
  // The reader
  // ---------------------------------------------------------------------------------------

  const DOMAINS: seq<Text> := [Lit("inputs"), Lit("rules"), Lit("topology"), Lit("plugins"), Lit("validation"), Lit("promotion")]

  /** The closed set of issue codes is a parameter: nothing depends on its members. */
  datatype Verdict = Oversized | Malformed | InvalidSummary | UnsupportedVersion | FutureTimestamp | Valid

  predicate KnownIssue(codes: set<Text>, i: Issue) {
    i.domain in DOMAINS && i.code in codes
  }

  /** The reader's checks on a decoded report, in its order. `parse` reads the completion time. */
  function Validate(codes: set<Text>, parse: Text -> Option<int>, earliest: int, now: int, r: Report): Verdict {
    var emitted := |r.errors|;
    var s := r.summary;
    if exists i :: 0 <= i < |r.errors| && !KnownIssue(codes, r.errors[i]) then InvalidSummary
    else if (r.ok && (r.generated.None? || r.errors != [])) || (!r.ok && r.generated.Some?) then Malformed
    else ValidateSummary(parse, earliest, now, r.ok, emitted, s)
  }

  function ValidateSummary(parse: Text -> Option<int>, earliest: int, now: int, ok: bool, emitted: nat, s: Summary): Verdict {
    if s.version != REPORT_VERSION then UnsupportedVersion
    else if || s.failureCode == ReportEmission
            || s.issueCount > MAX_ISSUES
            || (s.outcome == Success) != ok
            || (s.outcome == Success && s.failureCode != NoFailure)
            || (s.outcome == Failure && s.failureCode == NoFailure)
            || emitted > s.issueCount
            || (s.truncated && s.issueCount < MAX_ISSUES && emitted == s.issueCount)
            || (!s.truncated && s.issueCount != emitted)
    then InvalidSummary
    else
      var at := parse(s.completedAt);
      if at.None? then InvalidSummary
      else if at.value < earliest || at.value > now then FutureTimestamp
      else Valid
  }

  /** Main theorem: the reader accepts a failure report exactly when its code is one for reports
      and each emitted issue is of a known kind. Its checks on counts, truncation and outcome
      never fail, and the file is never oversized. */
  lemma {:induction false} FailureReportsAccepted(codes: set<Text>, parse: Text -> Option<int>, earliest: int, now: int,
      issues: seq<Issue>, generated: Option<Paths>, code: FailureCode, completedAt: Text, n: nat)
    requires n <= |issues| && (n == 0 || LoopSize(false, issues, generated, code, completedAt, n) <= MAX_BYTES)
    requires parse(completedAt).Some? && earliest <= parse(completedAt).value <= now
    requires Plain(completedAt) && |completedAt| <= 32
    ensures var r := ReportOf(false, issues, generated, code, completedAt, n);
            && |Written(r)| <= MAX_BYTES
            && (Validate(codes, parse, earliest, now, r) == Valid <==>
                  code != NoFailure && code != ReportEmission
                  && forall i :: 0 <= i < n ==> KnownIssue(codes, issues[i]))
  {
    hide Written, LoopSize, KnownIssue, Plain;
    SettlingFits(false, issues, generated, code, completedAt, n);
    if n == 0 { FailureFits(issues, generated, code, completedAt); }
    var r := ReportOf(false, issues, generated, code, completedAt, n);
    assert forall i :: 0 <= i < n ==> r.errors[i] == issues[i];
  }

  /** A success report is accepted when it has no issues and names its files. */
  lemma {:induction false} SuccessReportsAccepted(codes: set<Text>, parse: Text -> Option<int>, earliest: int, now: int,
      generated: Option<Paths>, code: FailureCode, completedAt: Text)
    requires parse(completedAt).Some? && earliest <= parse(completedAt).value <= now
    ensures Validate(codes, parse, earliest, now, ReportOf(true, [], generated, code, completedAt, 0)) == Valid
            <==> generated.Some? && code == NoFailure
  {}

  /** The ways in which the tool ends and writes a report. */
  datatype Ending =
    | BadArguments | BadInputs | UnreadableSource | Incompatible | StagedInvalid | PromotionFailed | Promoted

  /** The code it writes then; a failing write of the report itself is told on the terminal only. */
  function CodeOf(e: Ending): FailureCode {
    match e
    case BadArguments => Argument
    case BadInputs => InputValidation
    case UnreadableSource => SourceValidation
    case Incompatible => CatalogedIncompatibility
    case StagedInvalid => StagedValidation
    case PromotionFailed => PromotionFailure
    case Promoted => NoFailure
  }

  /** Main theorem: however the tool ends, the reader accepts the report it writes exactly when the
      issues in it are of known kinds, and the file is never oversized on a failure. */
  lemma {:induction false} WrittenReportsAccepted(codes: set<Text>, parse: Text -> Option<int>, earliest: int, now: int,
      ending: Ending, issues: seq<Issue>, generated: Option<Paths>, completedAt: Text, n: nat)
    requires n <= |issues| && (n == 0 || LoopSize(ending.Promoted?, issues, generated, CodeOf(ending), completedAt, n) <= MAX_BYTES)
    requires ending.Promoted? ==> issues == [] && generated.Some?
    requires parse(completedAt).Some? && earliest <= parse(completedAt).value <= now
    requires Plain(completedAt) && |completedAt| <= 32
    ensures var r := ReportOf(ending.Promoted?, issues, generated, CodeOf(ending), completedAt, n);
            && (!ending.Promoted? ==> |Written(r)| <= MAX_BYTES)
            && (Validate(codes, parse, earliest, now, r) == Valid <==> forall i :: 0 <= i < n ==> KnownIssue(codes, issues[i]))
  {
    hide Written, LoopSize, KnownIssue, Plain, Validate;
    if ending.Promoted? {
      SuccessReportsAccepted(codes, parse, earliest, now, generated, CodeOf(ending), completedAt);
    } else {
      FailureReportsAccepted(codes, parse, earliest, now, issues, generated, CodeOf(ending), completedAt, n);
    }
  }

  predicate Timely(parse: Text -> Option<int>, earliest: int, now: int, completedAt: Text) {
    var at := parse(completedAt);
    at.Some? && earliest <= at.value <= now
  }

  /** The reader, which does not look into a file beyond the bound. */
  function Read(codes: set<Text>, parse: Text -> Option<int>, earliest: int, now: int, r: Report): Verdict {
    if |Written(r)| > MAX_BYTES then Oversized else Validate(codes, parse, earliest, now, r)
  }

  /** What the writer's loop says one byte more than the file holds: it works with `false` for a
      truncation flag that becomes `true`. */
  function Slack(r: Report): nat {
    if r.summary.truncated && r.summary.issueCount < MAX_ISSUES then 1 else 0
  }

  /** Apart from sizes, the report is one that the reader accepts. */
  ghost predicate Sound(codes: set<Text>, parse: Text -> Option<int>, earliest: int, now: int, r: Report) {
    && (forall i :: 0 <= i < |r.errors| ==> KnownIssue(codes, r.errors[i]))
    && (r.ok <==> r.summary.failureCode == NoFailure) && r.summary.failureCode != ReportEmission
    && (r.ok ==> r.generated.Some? && r.errors == [])
    && Timely(parse, earliest, now, r.summary.completedAt)
  }

  /** Main theorem: of the reports within the bound that are sound in kinds, code and time, the
      writer leaves for some list of issues exactly those the reader accepts, except that with
      errors it also needs room for the byte its loop counts too many. */
  lemma {:induction false} AcceptedAndLeft(codes: set<Text>, parse: Text -> Option<int>, earliest: int, now: int, r: Report)
    ensures Read(codes, parse, earliest, now, r) == Valid && (r.errors == [] || |Written(r)| + Slack(r) <= MAX_BYTES) <==>
              && |Written(r)| <= MAX_BYTES
              && Sound(codes, parse, earliest, now, r)
              && exists issues :: LeftBy(r, issues)
  {
    hide Written, Sound, LeftBy, Validate, LoopSize, KnownIssue;
    if |Written(r)| <= MAX_BYTES {
      if Validate(codes, parse, earliest, now, r) == Valid {
        AcceptedIsSound(codes, parse, earliest, now, r);
        if r.errors == [] || |Written(r)| + Slack(r) <= MAX_BYTES { AcceptedIsLeft(codes, parse, earliest, now, r); }
      }
      forall issues | LeftBy(r, issues) && Sound(codes, parse, earliest, now, r)
        ensures Validate(codes, parse, earliest, now, r) == Valid
        ensures r.errors == [] || |Written(r)| + Slack(r) <= MAX_BYTES
      {
        LeftIsAccepted(codes, parse, earliest, now, r, issues);
      }
    }
  }

  /** The one family that is accepted and never left: as long as the bound, truncated, with fewer
      issues than can be counted. */
  lemma {:induction false} AcceptedNotLeft(codes: set<Text>, parse: Text -> Option<int>, earliest: int, now: int, r: Report)
    requires Read(codes, parse, earliest, now, r) == Valid
    ensures (forall issues :: !LeftBy(r, issues)) <==>
              r.errors != [] && |Written(r)| == MAX_BYTES && r.summary.truncated && r.summary.issueCount < MAX_ISSUES
  {
    hide Written, Sound, LeftBy, LoopSize, KnownIssue, Validate;
    AcceptedAndLeft(codes, parse, earliest, now, r);
    AcceptedIsSound(codes, parse, earliest, now, r);
  }

  function Filler(n: nat): (t: Text)
    ensures |t| == n && Plain(t)
  {
    seq(n, _ => 120)
  }

  /** A failure report with one issue of two, whose message has `n` characters. */
  function OneOfTwo(code: Text, completedAt: Text, n: nat): Report {
    Report(false, [Issue(DOMAINS[1], [], code, Filler(n), [])], None,
           Summary(REPORT_VERSION, Failure, CatalogedIncompatibility, 2, true, completedAt))
  }

  lemma {:induction false} OneOfTwoSize(code: Text, completedAt: Text, n: nat)
    requires Plain(code) && |code| <= 1_000 && Plain(completedAt) && |completedAt| <= 32
    ensures |Written(OneOfTwo(code, completedAt, n))| == |Written(OneOfTwo(code, completedAt, 0))| + n
    ensures |Written(OneOfTwo(code, completedAt, 0))| <= 2_000
  {
    hide Written, Chars, Plain, Frame, IssueJson;
    var r, r0 := OneOfTwo(code, completedAt, n), OneOfTwo(code, completedAt, 0);
    WrittenSize(r);
    WrittenSize(r0);
    SameFrame(r, r0);
    FailureFrame(r0);
    OneIssueSize(r.errors[0]);
    OneIssueSize(r0.errors[0]);
    PlainLength(Filler(n));
    PlainLength(Filler(0));
    PlainLength(code);
    CharsBound(Ascii, DOMAINS[1]);
    assert |DOMAINS[1]| == 5;
  }

  lemma {:induction false} OneIssueSize(i: Issue)
    ensures Size(Ascii, Arr(IssuesJson([i]))) == 69 + |Chars(Ascii, i.domain)| + |Chars(Ascii, i.location)| + |Chars(Ascii, i.code)|
                                                    + |Chars(Ascii, i.message)| + |Chars(Ascii, i.requirement)|
  {
    hide Chars, IssueJson;
    IssueSizeOf(i);
    ItemsSnoc([], i);
    assert [] + [i] == [i] && IssuesJson([]) == [];
    ArraySize(Ascii, []);
  }

  /** That family is not empty: for any issue code and any plausible time it has a member. */
  lemma {:induction false} AcceptedNotLeftExists(codes: set<Text>, parse: Text -> Option<int>, earliest: int, now: int,
      code: Text, completedAt: Text)
    requires code in codes && Plain(code) && |code| <= 1_000 && Plain(completedAt) && |completedAt| <= 32
    requires Timely(parse, earliest, now, completedAt)
    ensures exists r :: Read(codes, parse, earliest, now, r) == Valid && forall issues :: !LeftBy(r, issues)
  {
    hide Written, LeftBy, Plain;
    OneOfTwoSize(code, completedAt, 0);
    var n := MAX_BYTES - |Written(OneOfTwo(code, completedAt, 0))|;
    OneOfTwoSize(code, completedAt, n);
    var r := OneOfTwo(code, completedAt, n);
    assert DOMAINS[1] in DOMAINS;
    assert Read(codes, parse, earliest, now, r) == Valid;
    AcceptedNotLeft(codes, parse, earliest, now, r);
  }

  lemma {:induction false} AcceptedIsSound(codes: set<Text>, parse: Text -> Option<int>, earliest: int, now: int, r: Report)
    requires Validate(codes, parse, earliest, now, r) == Valid
    ensures Sound(codes, parse, earliest, now, r)
  {
    hide KnownIssue;
  }

  /** The loop's size of a report with all its errors. */
  lemma {:induction false} LoopSizeOf(r: Report, issues: seq<Issue>)
    requires |r.errors| <= |issues|
    requires r == ReportOf(r.ok, issues, r.generated, r.summary.failureCode, r.summary.completedAt, |r.errors|)
    ensures LoopSize(r.ok, issues, r.generated, r.summary.failureCode, r.summary.completedAt, |r.errors|) ==
            |Written(r)| + (if r.summary.truncated then 0 else -1) + (if |issues| > MAX_ISSUES then 0 else 1)
  {
    hide Written, IssuesJson;
    var r' := r.(summary := r.summary.(truncated := |issues| > MAX_ISSUES));
    WrittenSize(r);
    WrittenSize(r');
    SameFrame(r, r');
  }

  lemma {:induction false} LeftIsAccepted(codes: set<Text>, parse: Text -> Option<int>, earliest: int, now: int, r: Report, issues: seq<Issue>)
    requires LeftBy(r, issues) && Sound(codes, parse, earliest, now, r)
    ensures Validate(codes, parse, earliest, now, r) == Valid
    ensures r.errors == [] || |Written(r)| + Slack(r) <= MAX_BYTES
  {
    hide Written, LoopSize, KnownIssue;
    LoopSizeOf(r, issues);
    SettlingFits(r.ok, issues, r.generated, r.summary.failureCode, r.summary.completedAt, |r.errors|);
  }

  lemma {:induction false} AcceptedIsLeft(codes: set<Text>, parse: Text -> Option<int>, earliest: int, now: int, r: Report)
    requires Validate(codes, parse, earliest, now, r) == Valid
    requires r.errors == [] || |Written(r)| + Slack(r) <= MAX_BYTES
    ensures exists issues :: LeftBy(r, issues)
  {
    hide Written, LoopSize, KnownIssue;
    var issues := Padded(r);
    var n := |r.errors|;
    assert issues[..n] == r.errors;
    assert r == ReportOf(r.ok, issues, r.generated, r.summary.failureCode, r.summary.completedAt, n);
    LoopSizeOf(r, issues);
    if n < |issues| {
      LoopSizeNext(r.ok, issues, r.generated, r.summary.failureCode, r.summary.completedAt, n);
      LargeIssueSize();
    }
    assert LeftBy(r, issues);
  }

  function Large(): Issue {
    Issue([], [], [], seq(MAX_BYTES + 1, _ => 120), [])
  }

  lemma {:induction false} LargeIssueSize()
    ensures Size(Ascii, IssueJson(Large())) > MAX_BYTES
  {
    hide Chars, Large;
    var i := Large();
    LargeMessage();
    IssueSizeOf(i);
    CharsBound(Ascii, i.message);
  }

  lemma {:induction false} LargeMessage()
    ensures |Large().message| > MAX_BYTES
  {}

  /** The errors of a report, followed by as many large issues as its summary calls for. */
  function Padded(r: Report): (issues: seq<Issue>)
    ensures r.errors <= issues
    ensures forall i :: |r.errors| <= i < |issues| ==> issues[i] == Large()
  {
    var missing := if !r.summary.truncated then 0
                   else if r.summary.issueCount < MAX_ISSUES then r.summary.issueCount - |r.errors|
                   else MAX_ISSUES + 1 - |r.errors|;
    r.errors + seq(if missing < 0 then 0 else missing, _ => Large())
  }
}
