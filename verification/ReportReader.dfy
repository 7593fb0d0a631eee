/** The metrics reader: it takes the bytes of a report file, knows nothing of the writer's data
    types, and looks everything up by key.
  */
module ReportReader {
  import opened Order
  import opened Json
  import opened Canonical
  import opened Parsing
  import opened Reports

  // ---------------------------------------------------------------------------------------
  // Looking things up
  // ---------------------------------------------------------------------------------------

  /** The text is this word. */
  predicate Is(t: Text, word: string) {
    |t| == |word| && forall i :: 0 <= i < |t| ==> t[i] == word[i] as nat
  }

  predicate IsOneOf(t: Text, words: seq<string>) {
    exists w :: w in words && Is(t, w)
  }

  function Lookup(fields: seq<Field>, key: string): Option<Value> {
    if fields == [] then None
    else if Is(fields[0].key, key) then Some(fields[0].value)
    else Lookup(fields[1..], key)
  }

  /** `set(fields) == set(keys)` */
  predicate HasKeys(fields: seq<Field>, keys: seq<string>) {
    (forall f :: f in fields ==> IsOneOf(f.key, keys)) && forall k :: k in keys ==> Lookup(fields, k).Some?
  }

  function TextOf(v: Option<Value>): Option<Text> {
    if v.Some? && v.value.Str? then Some(v.value.s) else None
  }

  function BoolOf(v: Option<Value>): Option<bool> {
    if v.Some? && v.value.Bool? then Some(v.value.b) else None
  }

  /** A number literal without sign, fraction and exponent. */
  function NatOf(literal: seq<Byte>): Option<nat> {
    if literal == [] then None
    else
      var last := literal[|literal| - 1];
      if !('0' as nat <= last <= '9' as nat) then None
      else if |literal| == 1 then Some(last - '0' as nat)
      else
        var before := NatOf(literal[..|literal| - 1]);
        if before.None? then None else Some(before.value * 10 + (last - '0' as nat))
  }

  /** An integer that is no boolean; negative ones are of no use to the reader. */
  function CountOf(v: Option<Value>): Option<nat> {
    if v.Some? && v.value.Num? then NatOf(v.value.literal) else None
  }

  // ---------------------------------------------------------------------------------------
  // The checks
  // ---------------------------------------------------------------------------------------

  const CODE_WORDS: seq<string> := [
    "none", "argument", "input_validation", "source_validation", "cataloged_incompatibility", "staged_validation",
    "promotion_failure"]

  predicate GeneratedShape(v: Value) {
    v.Null?
    || (v.Obj? && HasKeys(v.fields, ["rules", "topology", "plugins"])
        && forall f :: f in v.fields ==> f.value.Str?)
  }

  predicate IssueShape(codes: set<Text>, v: Value) {
    && v.Obj?
    && HasKeys(v.fields, ["domain", "location", "code", "message", "requirement"])
    && (forall f :: f in v.fields ==> f.value.Str?)
    && var domain, code := TextOf(Lookup(v.fields, "domain")), TextOf(Lookup(v.fields, "code"));
       && domain.Some? && IsOneOf(domain.value, ["inputs", "rules", "topology", "plugins", "validation", "promotion"])
       && code.Some? && code.value in codes
  }

  /** What an accepted report says. */
  datatype Reading = Reading(verdict: Verdict, outcome: Text, code: Text, at: int)

  function Refuse(verdict: Verdict): Reading {
    Reading(verdict, [], [], 0)
  }

  function CheckReport(codes: set<Text>, parse: Text -> Option<int>, earliest: int, now: int, v: Value): Reading {
    if !v.Obj? || !HasKeys(v.fields, ["ok", "errors", "generated", "metrics_summary"]) then Refuse(Malformed)
    else
      var ok, errors := BoolOf(Lookup(v.fields, "ok")), Lookup(v.fields, "errors");
      var generated, summary := Lookup(v.fields, "generated").value, Lookup(v.fields, "metrics_summary").value;
      if ok.None? || !errors.value.Arr? || !GeneratedShape(generated) then Refuse(Malformed)
      else if exists i :: 0 <= i < |errors.value.items| && !IssueShape(codes, errors.value.items[i]) then Refuse(InvalidSummary)
      else if (ok.value && (generated.Null? || errors.value.items != [])) || (!ok.value && !generated.Null?) then Refuse(Malformed)
      else CheckSummary(parse, earliest, now, ok.value, |errors.value.items|, summary)
  }

  /** `True == 1`, so a version of `true` passes. */
  function CheckSummary(parse: Text -> Option<int>, earliest: int, now: int, ok: bool, emitted: nat, v: Value): Reading {
    if !v.Obj? || !HasKeys(v.fields, ["version", "outcome", "failure_code", "issue_count",
                                      "issues_truncated", "completed_at"]) then Refuse(InvalidSummary)
    else if CountOf(Lookup(v.fields, "version")) != Some(1) && BoolOf(Lookup(v.fields, "version")) != Some(true)
    then Refuse(UnsupportedVersion)
    else
      var outcome, code := TextOf(Lookup(v.fields, "outcome")), TextOf(Lookup(v.fields, "failure_code"));
      var count, truncated := CountOf(Lookup(v.fields, "issue_count")), BoolOf(Lookup(v.fields, "issues_truncated"));
      var completed := TextOf(Lookup(v.fields, "completed_at"));
      if || outcome.None? || !(Is(outcome.value, "success") || Is(outcome.value, "failure"))
         || code.None?
         || !IsOneOf(code.value, CODE_WORDS)
         || count.None? || count.value > 1_000
         || truncated.None? || completed.None?
         || (Is(outcome.value, "success")) != ok
         || (Is(outcome.value, "success") && !Is(code.value, "none"))
         || (Is(outcome.value, "failure") && Is(code.value, "none"))
         || emitted > count.value
         || (truncated.value && count.value < 1_000 && emitted == count.value)
         || (!truncated.value && count.value != emitted)
      then Refuse(InvalidSummary)
      else
        var at := parse(completed.value);
        if at.None? then Refuse(InvalidSummary)
        else if at.value < earliest || at.value > now then Refuse(FutureTimestamp)
        else Reading(Valid, outcome.value, code.value, at.value)
  }

  /** Reading a file: its size, its JSON text up to a line end, and the checks. */
  function ReadFile(codes: set<Text>, parse: Text -> Option<int>, earliest: int, now: int, file: seq<Byte>): Reading {
    if |file| > 65_536 then Refuse(Oversized)
    else
      var v := ParseValue(if file != [] && file[|file| - 1] == 10 then file[..|file| - 1] else file);
      if v.Nothing? || v.rest != [] then Refuse(Malformed)
      else CheckReport(codes, parse, earliest, now, v.value)
  }

  // ---------------------------------------------------------------------------------------
  // What was written is found again
  // ---------------------------------------------------------------------------------------

  lemma {:induction false} OneWord(t: Text, v: string, w: string)
    requires Is(t, v) && Is(t, w)
    ensures v == w
  {}

  lemma {:induction false} LitIs(w: string)
    requires forall c :: c in w ==> c < 128 as char
    ensures forall t :: Is(t, w) <==> t == Lit(w)
  {}

  lemma {:induction false} LookupFinds(fields: seq<Field>, f: Field, key: string)
    requires f in fields && Is(f.key, key) && forall g :: g in fields && Is(g.key, key) ==> g == f
    ensures Lookup(fields, key) == Some(f.value)
  {
    hide Is;
    if !Is(fields[0].key, key) { LookupFinds(fields[1..], f, key); }
  }

  lemma {:induction false} FieldsInOrderAt(fields: seq<Field>)
    ensures forall i :: 0 <= i < |fields| ==> FieldsInOrder(fields)[i] == Field(fields[i].key, InOrder(fields[i].value))
  {
    hide InOrder;
    if fields != [] { FieldsInOrderAt(fields[1..]); }
  }

  lemma {:induction false} ItemsInOrderAt(items: seq<Value>)
    ensures forall i :: 0 <= i < |items| ==> ItemsInOrder(items)[i] == InOrder(items[i])
  {
    hide InOrder;
    if items != [] { ItemsInOrderAt(items[1..]); }
  }

  ghost predicate Keyed(fields: seq<Field>, keys: seq<string>) {
    && |fields| == |keys|
    && (forall i :: 0 <= i < |keys| ==> Is(fields[i].key, keys[i]))
    && (forall i, j :: 0 <= i < j < |keys| ==> keys[i] != keys[j])
  }

  /** What an object holds when it has been read. */
  lemma {:induction false} FieldsRead(fields: seq<Field>)
    ensures InOrder(Obj(fields)).Obj?
    ensures forall i :: 0 <= i < |fields| ==> Field(fields[i].key, InOrder(fields[i].value)) in InOrder(Obj(fields)).fields
    ensures forall f :: f in InOrder(Obj(fields)).fields ==>
              exists i :: 0 <= i < |fields| && f == Field(fields[i].key, InOrder(fields[i].value))
  {
    hide FieldsInOrder, Sort;
    var found, read := FieldsInOrder(fields), InOrder(Obj(fields)).fields;
    assert read == Sort(FieldLess, found);
    FieldsInOrderAt(fields);
    SameMembers(read, found);
    forall i | 0 <= i < |fields| ensures Field(fields[i].key, InOrder(fields[i].value)) in read { assert found[i] in found; }
    forall f | f in read ensures exists i :: 0 <= i < |fields| && f == Field(fields[i].key, InOrder(fields[i].value)) {
      var i :| 0 <= i < |found| && found[i] == f;
    }
  }

  lemma {:induction false} KeysDiffer(fields: seq<Field>, keys: seq<string>)
    requires Keyed(fields, keys)
    ensures DistinctKeys(fields)
  {
    hide Is;
    forall i, j | 0 <= i < j < |fields| ensures fields[i].key != fields[j].key {
      if fields[i].key == fields[j].key { OneWord(fields[i].key, keys[i], keys[j]); }
    }
  }

  /** An object written with these keys has them, and every value is found under its key. */
  lemma {:induction false} ObjectRead(fields: seq<Field>, keys: seq<string>)
    requires Keyed(fields, keys)
    ensures InOrder(Obj(fields)).Obj? && HasKeys(InOrder(Obj(fields)).fields, keys)
    ensures forall i :: 0 <= i < |keys| ==> Lookup(InOrder(Obj(fields)).fields, keys[i]) == Some(InOrder(fields[i].value))
    ensures forall f :: f in InOrder(Obj(fields)).fields ==>
              exists i :: 0 <= i < |fields| && f == Field(fields[i].key, InOrder(fields[i].value))
    ensures DistinctKeys(fields)
  {
    hide Is, Lookup, InOrder;
    FieldsRead(fields);
    KeysDiffer(fields, keys);
    var read := InOrder(Obj(fields)).fields;
    forall i | 0 <= i < |keys| ensures Lookup(read, keys[i]) == Some(InOrder(fields[i].value)) {
      var found := Field(fields[i].key, InOrder(fields[i].value));
      forall g | g in read && Is(g.key, keys[i]) ensures g == found {
        var j :| 0 <= j < |fields| && g == Field(fields[j].key, InOrder(fields[j].value));
        OneWord(g.key, keys[j], keys[i]);
      }
      LookupFinds(read, found, keys[i]);
    }
    forall f | f in read ensures IsOneOf(f.key, keys) {
      var i :| 0 <= i < |fields| && f == Field(fields[i].key, InOrder(fields[i].value));
      assert keys[i] in keys;
    }
  }

  lemma {:induction false} DecimalRead(n: nat)
    ensures NatOf(Decimal(n)) == Some(n)
  {
    if n >= 10 {
      DecimalRead(n / 10);
      assert Decimal(n)[..|Decimal(n)| - 1] == Decimal(n / 10);
    }
  }

  lemma {:induction false} IssueKeyed(i: Issue)
    ensures Keyed(IssueJson(i).fields, ["domain", "location", "code", "message", "requirement"])
  {}

  lemma {:induction false} PathsKeyed(p: Paths)
    ensures Keyed(PathsJson(Some(p)).fields, ["rules", "topology", "plugins"])
  {}

  lemma {:induction false} SummaryKeyed(s: Summary)
    ensures Keyed(SummaryJson(s).fields, ["version", "outcome", "failure_code", "issue_count", "issues_truncated", "completed_at"])
  {}

  lemma {:induction false} ReportKeyed(r: Report)
    ensures Keyed(ReportJson(r).fields, ["ok", "errors", "generated", "metrics_summary"])
  {}

  // ---------------------------------------------------------------------------------------
  // Reading values back
  // ---------------------------------------------------------------------------------------

  function OutcomeOf(t: Text): Option<Outcome> {
    if Is(t, "success") then Some(Success) else if Is(t, "failure") then Some(Failure) else None
  }

  function FailureCodeOf(t: Text): Option<FailureCode> {
    if Is(t, "none") then Some(NoFailure)
    else if Is(t, "argument") then Some(Argument)
    else if Is(t, "input_validation") then Some(InputValidation)
    else if Is(t, "source_validation") then Some(SourceValidation)
    else if Is(t, "cataloged_incompatibility") then Some(CatalogedIncompatibility)
    else if Is(t, "staged_validation") then Some(StagedValidation)
    else if Is(t, "promotion_failure") then Some(PromotionFailure)
    else if Is(t, "report_emission") then Some(ReportEmission)
    else None
  }

  function IssueOf(v: Value): Option<Issue> {
    if !v.Obj? then None
    else
      var domain, location := TextOf(Lookup(v.fields, "domain")), TextOf(Lookup(v.fields, "location"));
      var code, message := TextOf(Lookup(v.fields, "code")), TextOf(Lookup(v.fields, "message"));
      var requirement := TextOf(Lookup(v.fields, "requirement"));
      if domain.None? || location.None? || code.None? || message.None? || requirement.None? then None
      else Some(Issue(domain.value, location.value, code.value, message.value, requirement.value))
  }

  function IssuesOf(items: seq<Value>): Option<seq<Issue>> {
    if items == [] then Some([])
    else
      var first, rest := IssueOf(items[0]), IssuesOf(items[1..]);
      if first.None? || rest.None? then None else Some([first.value] + rest.value)
  }

  function PathsOf(v: Value): Option<Paths> {
    if !v.Obj? then None
    else
      var rules, topology := TextOf(Lookup(v.fields, "rules")), TextOf(Lookup(v.fields, "topology"));
      var plugins := TextOf(Lookup(v.fields, "plugins"));
      if rules.None? || topology.None? || plugins.None? then None
      else Some(Paths(rules.value, topology.value, plugins.value))
  }

  function SummaryOf(v: Value): Option<Summary> {
    if !v.Obj? then None
    else
      var version, outcome := CountOf(Lookup(v.fields, "version")), TextOf(Lookup(v.fields, "outcome"));
      var code, count := TextOf(Lookup(v.fields, "failure_code")), CountOf(Lookup(v.fields, "issue_count"));
      var truncated, completed := BoolOf(Lookup(v.fields, "issues_truncated")), TextOf(Lookup(v.fields, "completed_at"));
      if || version.None? || outcome.None? || OutcomeOf(outcome.value).None? || code.None? || FailureCodeOf(code.value).None?
         || count.None? || truncated.None? || completed.None?
      then None
      else Some(Summary(version.value, OutcomeOf(outcome.value).value, FailureCodeOf(code.value).value, count.value,
                        truncated.value, completed.value))
  }

  /** All of a report, by its keys. */
  function Decode(v: Value): Option<Report> {
    if !v.Obj? then None
    else
      var ok, errors := BoolOf(Lookup(v.fields, "ok")), Lookup(v.fields, "errors");
      var generated, summary := Lookup(v.fields, "generated"), Lookup(v.fields, "metrics_summary");
      if ok.None? || errors.None? || !errors.value.Arr? || generated.None? || summary.None? then None
      else
        var issues, s := IssuesOf(errors.value.items), SummaryOf(summary.value);
        if issues.None? || s.None? then None
        else Some(Report(ok.value, issues.value, PathsOf(generated.value), s.value))
  }

  function OutcomeWord(o: Outcome): string {
    match o case Success => "success" case Failure => "failure"
  }

  function CodeWord(c: FailureCode): string {
    match c
    case NoFailure => "none"
    case Argument => "argument"
    case InputValidation => "input_validation"
    case SourceValidation => "source_validation"
    case CatalogedIncompatibility => "cataloged_incompatibility"
    case StagedValidation => "staged_validation"
    case PromotionFailure => "promotion_failure"
    case ReportEmission => "report_emission"
  }

  lemma {:induction false} OutcomeRead(o: Outcome)
    ensures Is(OutcomeText(o), OutcomeWord(o)) && OutcomeOf(OutcomeText(o)) == Some(o)
    ensures Is(OutcomeText(o), "success") <==> o.Success?
    ensures Is(OutcomeText(o), "failure") <==> o.Failure?
  {
    assert "success"[0] != "failure"[0];
    if Is(OutcomeText(o), "success") && Is(OutcomeText(o), "failure") { OneWord(OutcomeText(o), "success", "failure"); }
  }

  lemma {:induction false} CodeIsWord(c: FailureCode)
    ensures Is(FailureText(c), CodeWord(c))
  {}

  lemma {:induction false} CodeWordsDiffer(c: FailureCode, d: FailureCode)
    ensures CodeWord(c) == CodeWord(d) <==> c == d
  {
    assert "source_validation"[1] == 'o' && "staged_validation"[1] == 't' && "promotion_failure"[1] == 'r';
  }

  lemma {:induction false} FailureCodeRead(c: FailureCode)
    ensures forall d :: Is(FailureText(c), CodeWord(d)) <==> c == d
    ensures FailureCodeOf(FailureText(c)) == Some(c)
  {
    hide Is, CodeWord, FailureText;
    forall d ensures Is(FailureText(c), CodeWord(d)) <==> c == d {
      CodeIsWord(c);
      CodeWordsDiffer(c, d);
      if Is(FailureText(c), CodeWord(d)) { OneWord(FailureText(c), CodeWord(c), CodeWord(d)); }
    }
    CodeChosen(c, FailureText(c));
  }

  lemma {:induction false} CodeChosen(c: FailureCode, t: Text)
    requires forall d :: Is(t, CodeWord(d)) <==> c == d
    ensures FailureCodeOf(t) == Some(c)
  {
    hide Is;
    assert Is(t, CodeWord(c));
    assert CodeWord(NoFailure) == "none" && CodeWord(Argument) == "argument";
    assert CodeWord(InputValidation) == "input_validation" && CodeWord(SourceValidation) == "source_validation";
    assert CodeWord(CatalogedIncompatibility) == "cataloged_incompatibility" && CodeWord(StagedValidation) == "staged_validation";
    assert CodeWord(PromotionFailure) == "promotion_failure" && CodeWord(ReportEmission) == "report_emission";
  }

  /** The words that a report may give as its failure code are those of all codes but one. */
  lemma {:induction false} FailureWords(c: FailureCode)
    ensures IsOneOf(FailureText(c), CODE_WORDS) <==> !c.ReportEmission?
    ensures Is(FailureText(c), "none") <==> c.NoFailure?
  {
    hide Is, FailureText;
    FailureCodeRead(c);
    assert CodeWord(NoFailure) == "none";
    if !c.ReportEmission? { assert CodeWord(c) in CODE_WORDS; }
    forall w | w in CODE_WORDS && Is(FailureText(c), w) ensures !c.ReportEmission? {
      WordHasCode(w);
      var d :| d != ReportEmission && CodeWord(d) == w;
    }
  }

  lemma {:induction false} WordHasCode(w: string)
    requires w in CODE_WORDS
    ensures exists d :: d != ReportEmission && CodeWord(d) == w
  {
    assert CodeWord(NoFailure) == "none" && CodeWord(Argument) == "argument";
    assert CodeWord(InputValidation) == "input_validation" && CodeWord(SourceValidation) == "source_validation";
    assert CodeWord(CatalogedIncompatibility) == "cataloged_incompatibility" && CodeWord(StagedValidation) == "staged_validation";
    assert CodeWord(PromotionFailure) == "promotion_failure";
  }

  lemma {:induction false} DomainRead(t: Text)
    ensures IsOneOf(t, ["inputs", "rules", "topology", "plugins", "validation", "promotion"]) <==> t in DOMAINS
  {
    hide Is, Lit;
    LitIs("inputs");
    LitIs("rules");
    LitIs("topology");
    LitIs("plugins");
    LitIs("validation");
    LitIs("promotion");
    if t in DOMAINS {
      var i :| 0 <= i < 6 && DOMAINS[i] == t;
      assert Is(t, ["inputs", "rules", "topology", "plugins", "validation", "promotion"][i]);
    }
  }

  lemma {:induction false} IssueBack(codes: set<Text>, i: Issue)
    ensures IssueShape(codes, InOrder(IssueJson(i))) <==> KnownIssue(codes, i)
    ensures IssueOf(InOrder(IssueJson(i))) == Some(i)
  {
    hide Is, InOrder, HasKeys, Lookup, IsOneOf, Keyed;
    var fields := IssueJson(i).fields;
    var keys := ["domain", "location", "code", "message", "requirement"];
    IssueKeyed(i);
    ObjectRead(fields, keys);
    ScalarsStay(i.domain);
    ScalarsStay(i.location);
    ScalarsStay(i.code);
    ScalarsStay(i.message);
    ScalarsStay(i.requirement);
    var read := InOrder(IssueJson(i)).fields;
    assert Lookup(read, keys[0]) == Some(InOrder(fields[0].value)) && Lookup(read, keys[1]) == Some(InOrder(fields[1].value));
    assert Lookup(read, keys[2]) == Some(InOrder(fields[2].value)) && Lookup(read, keys[3]) == Some(InOrder(fields[3].value));
    assert Lookup(read, keys[4]) == Some(InOrder(fields[4].value));
    DomainRead(i.domain);
  }

  lemma {:induction false} ScalarsStay(t: Text)
    ensures InOrder(Str(t)) == Str(t)
  {}

  lemma {:induction false} IssuesBack(codes: set<Text>, issues: seq<Issue>)
    ensures IssuesOf(ItemsInOrder(IssuesJson(issues))) == Some(issues) && |ItemsInOrder(IssuesJson(issues))| == |issues|
    ensures forall i :: 0 <= i < |issues| ==>
              (IssueShape(codes, ItemsInOrder(IssuesJson(issues))[i]) <==> KnownIssue(codes, issues[i]))
  {
    hide IssueShape, KnownIssue, IssueOf, InOrder, IssueJson;
    ItemsInOrderAt(IssuesJson(issues));
    forall i | 0 <= i < |issues| { IssueBack(codes, issues[i]); }
    if issues != [] {
      IssuesBack(codes, issues[1..]);
      assert IssuesJson(issues)[1..] == IssuesJson(issues[1..]);
      assert issues == [issues[0]] + issues[1..];
    }
  }

  lemma {:induction false} PathsBack(p: Option<Paths>)
    ensures GeneratedShape(InOrder(PathsJson(p))) && PathsOf(InOrder(PathsJson(p))) == p
    ensures InOrder(PathsJson(p)).Null? <==> p.None?
  {
    if p.Some? {
      hide Is, InOrder, HasKeys, Lookup, Keyed;
      var fields := PathsJson(p).fields;
      var keys := ["rules", "topology", "plugins"];
      PathsKeyed(p.value);
      ObjectRead(fields, keys);
      ScalarsStay(p.value.rules);
      ScalarsStay(p.value.topology);
      ScalarsStay(p.value.plugins);
      var read := InOrder(PathsJson(p)).fields;
      assert Lookup(read, keys[0]) == Some(InOrder(fields[0].value)) && Lookup(read, keys[1]) == Some(InOrder(fields[1].value));
      assert Lookup(read, keys[2]) == Some(InOrder(fields[2].value));
    }
  }

  /** What the six fields of a summary are when they are looked up. */
  lemma {:induction false} SummaryLookups(s: Summary)
    ensures var v := InOrder(SummaryJson(s));
            && v.Obj?
            && HasKeys(v.fields, ["version", "outcome", "failure_code", "issue_count", "issues_truncated", "completed_at"])
            && CountOf(Lookup(v.fields, "version")) == Some(s.version)
            && TextOf(Lookup(v.fields, "outcome")) == Some(OutcomeText(s.outcome))
            && TextOf(Lookup(v.fields, "failure_code")) == Some(FailureText(s.failureCode))
            && CountOf(Lookup(v.fields, "issue_count")) == Some(s.issueCount)
            && BoolOf(Lookup(v.fields, "issues_truncated")) == Some(s.truncated)
            && TextOf(Lookup(v.fields, "completed_at")) == Some(s.completedAt)
  {
    hide Is, HasKeys, Lookup, Keyed, Decimal, NatOf, OutcomeText, FailureText;
    var fields := SummaryJson(s).fields;
    var keys := ["version", "outcome", "failure_code", "issue_count", "issues_truncated", "completed_at"];
    SummaryKeyed(s);
    ObjectRead(fields, keys);
    DecimalRead(s.version);
    DecimalRead(s.issueCount);
    var read := InOrder(SummaryJson(s)).fields;
    assert Lookup(read, keys[0]) == Some(InOrder(fields[0].value)) && Lookup(read, keys[1]) == Some(InOrder(fields[1].value));
    assert Lookup(read, keys[2]) == Some(InOrder(fields[2].value)) && Lookup(read, keys[3]) == Some(InOrder(fields[3].value));
    assert Lookup(read, keys[4]) == Some(InOrder(fields[4].value)) && Lookup(read, keys[5]) == Some(InOrder(fields[5].value));
  }

  /** What the reader makes of a report, told from the report. */
  ghost predicate Tells(reading: Reading, parse: Text -> Option<int>, verdict: Verdict, s: Summary) {
    && reading.verdict == verdict
    && (verdict == Valid ==>
          Is(reading.outcome, OutcomeWord(s.outcome)) && Is(reading.code, CodeWord(s.failureCode))
          && Some(reading.at) == parse(s.completedAt))
  }

  lemma {:induction false} SummaryBack(parse: Text -> Option<int>, earliest: int, now: int, ok: bool, emitted: nat, s: Summary)
    ensures Tells(CheckSummary(parse, earliest, now, ok, emitted, InOrder(SummaryJson(s))), parse,
                  ValidateSummary(parse, earliest, now, ok, emitted, s), s)
    ensures SummaryOf(InOrder(SummaryJson(s))) == Some(s)
  {
    hide Is, HasKeys, Lookup, OutcomeText, FailureText, SummaryJson, InOrder, OutcomeWord, CodeWord, IsOneOf;
    SummaryLookups(s);
    var v := InOrder(SummaryJson(s));
    assert BoolOf(Lookup(v.fields, "version")) == None;
    OutcomeRead(s.outcome);
    FailureCodeRead(s.failureCode);
    FailureWords(s.failureCode);
  }

  lemma {:induction false} ReportLookups(r: Report)
    ensures var v := InOrder(ReportJson(r));
            && v.Obj? && HasKeys(v.fields, ["ok", "errors", "generated", "metrics_summary"])
            && BoolOf(Lookup(v.fields, "ok")) == Some(r.ok)
            && Lookup(v.fields, "errors") == Some(Arr(ItemsInOrder(IssuesJson(r.errors))))
            && Lookup(v.fields, "generated") == Some(InOrder(PathsJson(r.generated)))
            && Lookup(v.fields, "metrics_summary") == Some(InOrder(SummaryJson(r.summary)))
  {
    hide Is, HasKeys, Lookup, Keyed, IssuesJson, PathsJson, SummaryJson, ItemsInOrder, FieldsInOrder, Sort;
    var fields := ReportJson(r).fields;
    var keys := ["ok", "errors", "generated", "metrics_summary"];
    ReportKeyed(r);
    ObjectRead(fields, keys);
    var read := InOrder(ReportJson(r)).fields;
    assert Lookup(read, keys[0]) == Some(InOrder(fields[0].value)) && Lookup(read, keys[1]) == Some(InOrder(fields[1].value));
    assert Lookup(read, keys[2]) == Some(InOrder(fields[2].value)) && Lookup(read, keys[3]) == Some(InOrder(fields[3].value));
  }

  /** The reader's checks on the JSON of a report are the checks on the report, and all of it can be
      read back by its keys. */
  lemma {:induction false} ReportBack(codes: set<Text>, parse: Text -> Option<int>, earliest: int, now: int, r: Report)
    ensures Tells(CheckReport(codes, parse, earliest, now, InOrder(ReportJson(r))), parse,
                  Validate(codes, parse, earliest, now, r), r.summary)
    ensures Decode(InOrder(ReportJson(r))) == Some(r)
  {
    hide Is, HasKeys, Lookup, InOrder, ItemsInOrder, ReportJson, PathsJson, SummaryJson, IssuesJson, IssueShape, KnownIssue;
    hide CheckSummary, ValidateSummary, GeneratedShape, PathsOf, SummaryOf, IssuesOf, OutcomeWord, CodeWord;
    ReportLookups(r);
    IssuesBack(codes, r.errors);
    PathsBack(r.generated);
    SummaryBack(parse, earliest, now, r.ok, |r.errors|, r.summary);
  }

  // ---------------------------------------------------------------------------------------
  // Whole files
  // ---------------------------------------------------------------------------------------

  /** No text of the report holds half of a surrogate pair; two halves would be read as one character. */
  ghost predicate NoSurrogates(r: Report) {
    && (forall i :: i in r.errors ==>
          Encodable(i.domain) && Encodable(i.location) && Encodable(i.code) && Encodable(i.message) && Encodable(i.requirement))
    && (r.generated.Some? ==>
          var p := r.generated.value; Encodable(p.rules) && Encodable(p.topology) && Encodable(p.plugins))
    && Encodable(r.summary.completedAt)
  }

  ghost predicate Encodes(v: Value) {
    EncodableValue(v) && WellFormed(v)
  }

  lemma {:induction false} WordEncodable(t: Text, word: string)
    requires Is(t, word)
    ensures Encodable(t)
  {}

  lemma {:induction false} ObjectEncodes(fields: seq<Field>, keys: seq<string>)
    requires Keyed(fields, keys) && forall i :: 0 <= i < |fields| ==> Encodes(fields[i].value)
    ensures Encodes(Obj(fields))
  {
    hide Is, Encodable;
    ObjectRead(fields, keys);
    forall i | 0 <= i < |fields|
      ensures Encodable(fields[i].key) && EncodableValue(fields[i].value) && WellFormed(fields[i].value)
    {
      WordEncodable(fields[i].key, keys[i]);
      assert Encodes(fields[i].value);
    }
    assert EncodableFields(fields) && WellFormedFields(fields);
  }

  lemma {:induction false} StrEncodes(t: Text)
    requires Encodable(t)
    ensures Encodes(Str(t))
  {}

  lemma {:induction false} IssueEncodes(i: Issue)
    requires Encodable(i.domain) && Encodable(i.location) && Encodable(i.code) && Encodable(i.message) && Encodable(i.requirement)
    ensures Encodes(IssueJson(i))
  {
    hide Encodable, Keyed, Encodes;
    IssueKeyed(i);
    StrEncodes(i.domain);
    StrEncodes(i.location);
    StrEncodes(i.code);
    StrEncodes(i.message);
    StrEncodes(i.requirement);
    ObjectEncodes(IssueJson(i).fields, ["domain", "location", "code", "message", "requirement"]);
  }

  lemma {:induction false} PathsEncode(p: Option<Paths>)
    requires p.Some? ==> Encodable(p.value.rules) && Encodable(p.value.topology) && Encodable(p.value.plugins)
    ensures Encodes(PathsJson(p))
  {
    if p.Some? {
      hide Encodable, Keyed, Encodes;
      PathsKeyed(p.value);
      StrEncodes(p.value.rules);
      StrEncodes(p.value.topology);
      StrEncodes(p.value.plugins);
      ObjectEncodes(PathsJson(p).fields, ["rules", "topology", "plugins"]);
    }
  }

  lemma {:induction false} DecimalText(n: nat)
    ensures forall b :: b in Decimal(n) ==> 48 <= b < 58
    ensures NumberText(Decimal(n))
  {
    if n >= 10 { DecimalText(n / 10); }
    assert Decimal(n)[0] in Decimal(n);
  }

  lemma {:induction false} ScalarsEncode(n: nat, b: bool)
    ensures Encodes(Num(Decimal(n))) && Encodes(Bool(b))
  {
    DecimalText(n);
  }

  lemma {:induction false} SummaryEncodes(s: Summary)
    requires Encodable(s.completedAt)
    ensures Encodes(SummaryJson(s))
  {
    hide Encodable, Keyed, Encodes, Decimal, OutcomeText, FailureText, Is;
    SummaryKeyed(s);
    OutcomeRead(s.outcome);
    CodeIsWord(s.failureCode);
    WordEncodable(OutcomeText(s.outcome), OutcomeWord(s.outcome));
    WordEncodable(FailureText(s.failureCode), CodeWord(s.failureCode));
    StrEncodes(OutcomeText(s.outcome));
    StrEncodes(FailureText(s.failureCode));
    StrEncodes(s.completedAt);
    ScalarsEncode(s.version, s.truncated);
    ScalarsEncode(s.issueCount, s.truncated);
    ObjectEncodes(SummaryJson(s).fields,
                  ["version", "outcome", "failure_code", "issue_count", "issues_truncated", "completed_at"]);
  }

  lemma {:induction false} ArrayEncodes(items: seq<Value>)
    requires forall i :: 0 <= i < |items| ==> Encodes(items[i])
    ensures Encodes(Arr(items))
  {}

  lemma {:induction false} ReportEncodes(r: Report)
    requires NoSurrogates(r)
    ensures Encodes(ReportJson(r))
  {
    hide Encodable, Keyed, Encodes, IssueJson, PathsJson, SummaryJson;
    forall i | 0 <= i < |r.errors| ensures Encodes(IssuesJson(r.errors)[i]) { IssueEncodes(r.errors[i]); }
    ArrayEncodes(IssuesJson(r.errors));
    ScalarsEncode(0, r.ok);
    PathsEncode(r.generated);
    SummaryEncodes(r.summary);
    ReportKeyed(r);
    ObjectEncodes(ReportJson(r).fields, ["ok", "errors", "generated", "metrics_summary"]);
  }

  /** Main theorem: from the bytes that the writer leaves, the reader finds the verdict, the outcome,
      the failure code and the time of the report, and all of the report is in them. */
  lemma {:induction false} FileBack(codes: set<Text>, parse: Text -> Option<int>, earliest: int, now: int, r: Report)
    requires NoSurrogates(r)
    ensures Tells(ReadFile(codes, parse, earliest, now, Written(r)), parse, Read(codes, parse, earliest, now, r), r.summary)
    ensures var text := Written(r)[..|Written(r)| - 1];
            ParseValue(text) == Parsed(InOrder(ReportJson(r)), []) && Decode(InOrder(ReportJson(r))) == Some(r)
  {
    hide CheckReport, Decode, ParseValue, Serialize, InOrder, ReportJson, Validate, NoSurrogates, OutcomeWord, CodeWord, Is;
    var text := Serialize(Ascii, ReportJson(r));
    ReportEncodes(r);
    ValueBack(Ascii, ReportJson(r), []);
    assert Written(r)[..|Written(r)| - 1] == text && text + [] == text;
    ReportBack(codes, parse, earliest, now, r);
  }

  /** Main theorem: however the tool ends, the reader accepts the file it leaves exactly when the
      issues in it are of known kinds, and then reads from it how the tool ended. */
  lemma {:induction false} WrittenFilesAccepted(codes: set<Text>, parse: Text -> Option<int>, earliest: int, now: int,
      ending: Ending, issues: seq<Issue>, r: Report)
    requires LeftBy(r, issues) && r.ok == ending.Promoted? && r.summary.failureCode == CodeOf(ending) && NoSurrogates(r)
    requires ending.Promoted? ==> issues == [] && r.generated.Some? && |Written(r)| <= MAX_BYTES
    requires Timely(parse, earliest, now, r.summary.completedAt)
    requires Plain(r.summary.completedAt) && |r.summary.completedAt| <= 32
    ensures var reading := ReadFile(codes, parse, earliest, now, Written(r));
            && (reading.verdict == Valid <==> forall i :: i in r.errors ==> KnownIssue(codes, i))
            && (reading.verdict == Valid ==>
                  && (Is(reading.outcome, "success") <==> ending.Promoted?)
                  && (Is(reading.outcome, "failure") <==> !ending.Promoted?)
                  && Is(reading.code, match ending
                                      case BadArguments => "argument"
                                      case BadInputs => "input_validation"
                                      case UnreadableSource => "source_validation"
                                      case Incompatible => "cataloged_incompatibility"
                                      case StagedInvalid => "staged_validation"
                                      case PromotionFailed => "promotion_failure"
                                      case Promoted => "none")
                  && Some(reading.at) == parse(r.summary.completedAt))
  {
    hide ReadFile, Written, LoopSize, KnownIssue, Plain, Validate, NoSurrogates, Is, OutcomeText;
    var n := |r.errors|;
    FileBack(codes, parse, earliest, now, r);
    WrittenReportsAccepted(codes, parse, earliest, now, ending, issues, r.generated, r.summary.completedAt, n);
    var reading := ReadFile(codes, parse, earliest, now, Written(r));
    assert forall i :: 0 <= i < n ==> r.errors[i] == issues[i] && r.errors[i] in r.errors;
    if reading.verdict == Valid { OutcomeWordIs(reading.outcome, r.summary.outcome); }
  }

  lemma {:induction false} OutcomeWordIs(t: Text, o: Outcome)
    requires Is(t, OutcomeWord(o))
    ensures Is(t, "success") <==> o.Success?
    ensures Is(t, "failure") <==> o.Failure?
  {
    assert "success"[0] != "failure"[0];
    if Is(t, "success") && Is(t, "failure") { OneWord(t, "success", "failure"); }
  }

  // ---------------------------------------------------------------------------------------
  // Any other file
  // ---------------------------------------------------------------------------------------

  lemma {:induction false} LookupIn(fields: seq<Field>, key: string)
    requires Lookup(fields, key).Some?
    ensures exists f :: f in fields && f.value == Lookup(fields, key).value
  {
    hide Is;
    if !Is(fields[0].key, key) {
      LookupIn(fields[1..], key);
      var f :| f in fields[1..] && f.value == Lookup(fields[1..], key).value;
      assert f in fields;
    } else {
      assert fields[0] in fields;
    }
  }

  /** An object with exactly these keys, all of them with texts. */
  predicate TextObject(v: Value, keys: seq<string>) {
    v.Obj? && HasKeys(v.fields, keys) && forall f :: f in v.fields ==> f.value.Str?
  }

  lemma {:induction false} TextsFound(v: Value, keys: seq<string>)
    requires TextObject(v, keys)
    ensures forall k :: k in keys ==> TextOf(Lookup(v.fields, k)).Some?
  {
    hide Lookup;
    forall k | k in keys ensures TextOf(Lookup(v.fields, k)).Some? { LookupIn(v.fields, k); }
  }

  predicate SummaryShape(v: Value) {
    && v.Obj? && HasKeys(v.fields, ["version", "outcome", "failure_code", "issue_count", "issues_truncated", "completed_at"])
    && CountOf(Lookup(v.fields, "version")).Some? && CountOf(Lookup(v.fields, "issue_count")).Some?
    && BoolOf(Lookup(v.fields, "issues_truncated")).Some? && TextOf(Lookup(v.fields, "completed_at")).Some?
    && var outcome, code := TextOf(Lookup(v.fields, "outcome")), TextOf(Lookup(v.fields, "failure_code"));
       outcome.Some? && OutcomeOf(outcome.value).Some? && code.Some? && FailureCodeOf(code.value).Some?
  }

  /** The JSON has the shape of a report: exactly its keys at every level, and the types and words. */
  predicate ReportShape(v: Value) {
    && v.Obj? && HasKeys(v.fields, ["ok", "errors", "generated", "metrics_summary"])
    && BoolOf(Lookup(v.fields, "ok")).Some?
    && Lookup(v.fields, "errors").value.Arr?
    && (forall i :: i in Lookup(v.fields, "errors").value.items ==>
          TextObject(i, ["domain", "location", "code", "message", "requirement"]))
    && (Lookup(v.fields, "generated").value.Null?
        || TextObject(Lookup(v.fields, "generated").value, ["rules", "topology", "plugins"]))
    && SummaryShape(Lookup(v.fields, "metrics_summary").value)
  }

  lemma {:induction false} IssueShapeIs(codes: set<Text>, v: Value)
    ensures IssueShape(codes, v) ==> TextObject(v, ["domain", "location", "code", "message", "requirement"])
    ensures TextObject(v, ["domain", "location", "code", "message", "requirement"]) ==>
              IssueOf(v).Some? && (IssueShape(codes, v) <==> KnownIssue(codes, IssueOf(v).value))
  {
    var keys := ["domain", "location", "code", "message", "requirement"];
    if TextObject(v, keys) {
      hide Is, HasKeys, Lookup, IsOneOf;
      TextsFound(v, keys);
      assert keys[0] in keys && keys[1] in keys && keys[2] in keys && keys[3] in keys && keys[4] in keys;
      DomainRead(TextOf(Lookup(v.fields, "domain")).value);
    }
  }

  lemma {:induction false} IssuesShapeIs(codes: set<Text>, items: seq<Value>)
    requires forall i :: i in items ==> TextObject(i, ["domain", "location", "code", "message", "requirement"])
    ensures IssuesOf(items).Some? && |IssuesOf(items).value| == |items|
    ensures forall k :: 0 <= k < |items| ==> (IssueShape(codes, items[k]) <==> KnownIssue(codes, IssuesOf(items).value[k]))
  {
    hide TextObject, IssueShape, KnownIssue, IssueOf;
    if items != [] {
      IssueShapeIs(codes, items[0]);
      assert items[0] in items && forall i :: i in items[1..] ==> i in items;
      IssuesShapeIs(codes, items[1..]);
    }
  }

  lemma {:induction false} PathsShapeIs(v: Value)
    ensures GeneratedShape(v) <==> v.Null? || TextObject(v, ["rules", "topology", "plugins"])
    ensures GeneratedShape(v) ==> (PathsOf(v).Some? <==> !v.Null?)
  {
    var keys := ["rules", "topology", "plugins"];
    if TextObject(v, keys) {
      hide Is, HasKeys, Lookup;
      TextsFound(v, keys);
      assert keys[0] in keys && keys[1] in keys && keys[2] in keys;
    }
  }

  lemma {:induction false} CodeOfWord(t: Text, c: FailureCode)
    requires FailureCodeOf(t) == Some(c)
    ensures IsOneOf(t, CODE_WORDS) <==> !c.ReportEmission?
    ensures Is(t, CodeWord(c)) && (Is(t, "none") <==> c.NoFailure?)
  {
    hide Is, FailureText;
    CodeIsWord(c);
    SameWord(t, FailureText(c), CodeWord(c)) by { assert Is(t, CodeWord(c)); }
    FailureWords(c);
  }

  lemma {:induction false} SameWord(t: Text, u: Text, word: string)
    requires Is(t, word) && Is(u, word)
    ensures t == u
  {}

  lemma {:induction false} CodeWordFound(t: Text)
    requires IsOneOf(t, CODE_WORDS)
    ensures FailureCodeOf(t).Some?
  {
    hide Is;
  }

  lemma {:induction false} OutcomeOfWord(t: Text, o: Outcome)
    requires OutcomeOf(t) == Some(o)
    ensures Is(t, OutcomeWord(o)) && (Is(t, "success") <==> o.Success?) && (Is(t, "failure") <==> o.Failure?)
  {
    OutcomeWordIs(t, o);
  }

  /** The checks on a summary of the right shape are those on what it decodes to. */
  lemma {:induction false} SummaryChecked(parse: Text -> Option<int>, earliest: int, now: int, ok: bool, emitted: nat, v: Value)
    requires SummaryShape(v)
    ensures SummaryOf(v).Some?
    ensures Tells(CheckSummary(parse, earliest, now, ok, emitted, v), parse,
                  ValidateSummary(parse, earliest, now, ok, emitted, SummaryOf(v).value), SummaryOf(v).value)
  {
    hide Is, HasKeys, Lookup, OutcomeWord, CodeWord, IsOneOf, OutcomeOf, FailureCodeOf;
    var outcome, code := TextOf(Lookup(v.fields, "outcome")).value, TextOf(Lookup(v.fields, "failure_code")).value;
    OutcomeOfWord(outcome, OutcomeOf(outcome).value);
    CodeOfWord(code, FailureCodeOf(code).value);
  }

  lemma {:induction false} SummaryAccepted(parse: Text -> Option<int>, earliest: int, now: int, ok: bool, emitted: nat, v: Value)
    requires CheckSummary(parse, earliest, now, ok, emitted, v).verdict == Valid && v.Obj?
    requires BoolOf(Lookup(v.fields, "version")).None?
    ensures SummaryShape(v)
  {
    hide Is, HasKeys, Lookup, IsOneOf, FailureCodeOf;
    var code := TextOf(Lookup(v.fields, "failure_code"));
    if code.Some? && IsOneOf(code.value, CODE_WORDS) { CodeWordFound(code.value); }
  }

  /** Main theorem: a file of any content is accepted only if it has the shape of a report, a version
      of `true` aside; and on that shape the reader's checks are those on the report it decodes to. */
  lemma {:induction false} CheckedReport(codes: set<Text>, parse: Text -> Option<int>, earliest: int, now: int, v: Value)
    ensures CheckReport(codes, parse, earliest, now, v).verdict == Valid ==> ReportShape(v) || VersionTrue(v)
    ensures ReportShape(v) ==>
              Decode(v).Some?
              && Tells(CheckReport(codes, parse, earliest, now, v), parse,
                       Validate(codes, parse, earliest, now, Decode(v).value), Decode(v).value.summary)
  {
    hide Is, HasKeys, Lookup, IssueShape, KnownIssue, TextObject, GeneratedShape, PathsOf, IssuesOf, SummaryOf, SummaryShape;
    hide CheckSummary, ValidateSummary, OutcomeWord, CodeWord;
    if v.Obj? && HasKeys(v.fields, ["ok", "errors", "generated", "metrics_summary"]) {
      TopKeys(v.fields);
      PartsChecked(codes, parse, earliest, now, v);
    }
  }

  /** The summary gives `true` for the version. */
  predicate VersionTrue(v: Value) {
    v.Obj? && var summary := Lookup(v.fields, "metrics_summary");
              summary.Some? && summary.value.Obj? && BoolOf(Lookup(summary.value.fields, "version")) == Some(true)
  }

  lemma {:induction false} TopKeys(fields: seq<Field>)
    requires HasKeys(fields, ["ok", "errors", "generated", "metrics_summary"])
    ensures Lookup(fields, "ok").Some? && Lookup(fields, "errors").Some?
    ensures Lookup(fields, "generated").Some? && Lookup(fields, "metrics_summary").Some?
  {}

  lemma {:induction false} PartsChecked(codes: set<Text>, parse: Text -> Option<int>, earliest: int, now: int, v: Value)
    requires v.Obj? && HasKeys(v.fields, ["ok", "errors", "generated", "metrics_summary"])
    ensures CheckReport(codes, parse, earliest, now, v).verdict == Valid ==> ReportShape(v) || VersionTrue(v)
    ensures ReportShape(v) ==>
              Decode(v).Some?
              && Tells(CheckReport(codes, parse, earliest, now, v), parse,
                       Validate(codes, parse, earliest, now, Decode(v).value), Decode(v).value.summary)
  {
    hide Is, HasKeys, Lookup, IssueShape, KnownIssue, TextObject, GeneratedShape, PathsOf, IssuesOf, SummaryOf, SummaryShape;
    hide CheckSummary, ValidateSummary, OutcomeWord, CodeWord;
    TopKeys(v.fields);
    if !Lookup(v.fields, "errors").value.Arr? { return; }
    var items, summary := Lookup(v.fields, "errors").value.items, Lookup(v.fields, "metrics_summary").value;
    PathsShapeIs(Lookup(v.fields, "generated").value);
    if ReportShape(v) {
      IssuesShapeIs(codes, items);
      SummaryChecked(parse, earliest, now, BoolOf(Lookup(v.fields, "ok")).value, |items|, summary);
    } else if CheckReport(codes, parse, earliest, now, v).verdict == Valid && !VersionTrue(v) {
      forall i | i in items ensures TextObject(i, ["domain", "location", "code", "message", "requirement"]) {
        var k :| 0 <= k < |items| && items[k] == i;
        IssueShapeIs(codes, items[k]);
      }
      SummaryIsAccepted(parse, earliest, now, BoolOf(Lookup(v.fields, "ok")).value, |items|, summary);
    }
  }

  lemma {:induction false} SummaryIsAccepted(parse: Text -> Option<int>, earliest: int, now: int, ok: bool, emitted: nat, v: Value)
    requires CheckSummary(parse, earliest, now, ok, emitted, v).verdict == Valid
    ensures v.Obj?
    ensures SummaryShape(v) || BoolOf(Lookup(v.fields, "version")) == Some(true)
  {
    hide Is, HasKeys, Lookup, IsOneOf, FailureCodeOf, SummaryShape;
    if BoolOf(Lookup(v.fields, "version")).None? { SummaryAccepted(parse, earliest, now, ok, emitted, v); }
  }
}
