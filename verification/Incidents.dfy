/** Incident rows and the repository operations on them.

    `Selects` is the WHERE clause of an operation and `Effect` the row its update leaves.
    The store class runs the operations in place; histories of rows and of concurrent
    transactions are built from `Selects` and `Effect`.
  */
module Incidents {
  import opened Order
  import opened Ranks
  import opened Windows

  const MAX_AFFECTED := 100
  const MAX_DELIVERY_RECORDS := 20

  datatype Option<+T> = None | Some(value: T)

  type Id = nat

  type NonEmpty = t: Text | t != [] witness [0]

  datatype Severity = OK | WARNING | UNKNOWN | CRITICAL {
    function Rank(): nat {
      match this case OK => 0 case WARNING => 1 case UNKNOWN => 2 case CRITICAL => 3
    }
  }

  function MaxSeverity(existing: Severity, incoming: Severity): Severity {
    if incoming.Rank() > existing.Rank() then incoming else existing
  }

  datatype Status = Open | Resolved | Closed

  /** A reported object: a host, or one service of a host. */
  datatype Object = Object(host: Text, service: Option<NonEmpty>)

  function ServiceKey(o: Object): Text {
    if o.service.None? then [] else o.service.value
  }

  predicate ObjectLess(a: Object, b: Object) {
    Less(a.host, b.host) || (a.host == b.host && Less(ServiceKey(a), ServiceKey(b)))
  }

  /** Because service names are not empty, the sort key tells all objects apart. */
  lemma {:induction false} ObjectLessIsStrictTotal()
    ensures StrictTotal(ObjectLess)
  {
    LessIsStrictTotal();
    forall a, b | a != b ensures ObjectLess(a, b) || ObjectLess(b, a) {
      assert a.host == b.host ==> ServiceKey(a) != ServiceKey(b);
    }
  }

  // ---------------------------------------------------------------------------------------
  // Delivery records and decision context
  // ---------------------------------------------------------------------------------------

  datatype Category = Dispatched | MissingPlugin | MissingIncident | PluginException | DispatchFailed

  /** The messages that may be stored, and every other text. */
  datatype Message =
    | PluginIsMissing | NotificationDispatched | PluginFailed | ResultRedacted
    | RunnerUnavailable | SubmissionFailed | StalePluginConfiguration | OtherText(text: Text)

  datatype NotificationResult = NotificationResult(success: bool, category: Category, message: Message)

  function SafeResult(r: NotificationResult): NotificationResult {
    if r.message.OtherText? then r.(message := ResultRedacted) else r
  }

  datatype Record = Record(plugin: Text, result: NotificationResult)

  predicate RecordLess(a: Record, b: Record) {
    Less(a.plugin, b.plugin)
  }

  ghost predicate RecordsValid(rs: seq<Record>) {
    |rs| <= MAX_DELIVERY_RECORDS && SortedBy(RecordLess, rs)
  }

  /** Replaces the record of `plugin`, or adds one, keeping the order by plugin name. */
  function PutRecord(rs: seq<Record>, r: Record): seq<Record> {
    if rs == [] || Less(r.plugin, rs[0].plugin) then [r] + rs
    else if rs[0].plugin == r.plugin then [r] + rs[1..]
    else [rs[0]] + PutRecord(rs[1..], r)
  }

  lemma {:induction false} PutRecordPuts(rs: seq<Record>, r: Record)
    requires SortedBy(RecordLess, rs)
    ensures SortedBy(RecordLess, PutRecord(rs, r))
    ensures forall x :: x in PutRecord(rs, r) <==> x == r || (x in rs && x.plugin != r.plugin)
  {
    LessIsStrictTotal();
    if rs == [] {
    } else if Less(r.plugin, rs[0].plugin) {
      forall i | 0 <= i < |rs| ensures Less(r.plugin, rs[i].plugin) {
        assert i > 0 ==> RecordLess(rs[0], rs[i]);
      }
    } else if rs[0].plugin == r.plugin {
      forall i | 1 <= i < |rs| ensures Less(r.plugin, rs[i].plugin) {
        assert RecordLess(rs[0], rs[i]);
      }
      assert rs == [rs[0]] + rs[1..];
    } else {
      PutRecordPuts(rs[1..], r);
      assert rs == [rs[0]] + rs[1..];
      var rest := PutRecord(rs[1..], r);
      forall i | 0 <= i < |rest| ensures RecordLess(rs[0], rest[i]) {
        assert rest[i] in rest;
        assert rest[i] == r || rest[i] in rs[1..];
      }
    }
  }

  /** A record more exactly for a plugin that had none. */
  lemma {:induction false} PutRecordCount(rs: seq<Record>, r: Record)
    requires SortedBy(RecordLess, rs)
    ensures |PutRecord(rs, r)| == |rs| + if exists x :: x in rs && x.plugin == r.plugin then 0 else 1
  {
    if rs != [] {
      assert rs == [rs[0]] + rs[1..];
      if Less(r.plugin, rs[0].plugin) {
        forall x | x in rs ensures x.plugin != r.plugin { LessThanAll(rs, r, x); }
      } else if rs[0].plugin != r.plugin {
        PutRecordCount(rs[1..], r);
      }
    }
  }

  lemma {:induction false} LessThanAll(rs: seq<Record>, r: Record, x: Record)
    requires SortedBy(RecordLess, rs) && rs != [] && Less(r.plugin, rs[0].plugin) && x in rs
    ensures x.plugin != r.plugin
  {
    hide Less;
    var i :| 0 <= i < |rs| && rs[i] == x;
    LessIrreflexive(r.plugin);
    if i > 0 {
      assert RecordLess(rs[0], rs[i]);
      LessTransitive(r.plugin, rs[0].plugin, rs[i].plugin);
    }
  }

  /** The stored decision context, as far as lifecycle code reads or rewrites it. */
  datatype Context = Context(
    fingerprint: Option<Text>, source: Option<Text>, eventCount: Option<int>, records: Option<seq<Record>>)

  function RecordsOf(c: Context): seq<Record> {
    if c.records.None? then [] else c.records.value
  }

  /** An incoming context takes over the delivery records already stored. */
  function PreserveRecords(existing: Context, incoming: Context): Context {
    if existing.records.None? then incoming else incoming.(records := existing.records)
  }

  /** `given or stored`: an empty text counts as none. */
  function Or(given: Option<Text>, stored: Option<Text>): Option<Text> {
    if given.None? || given.value == [] then stored else given
  }

  function LifecycleContext(c: Context, fingerprint: Option<Text>, source: Option<Text>, eventCount: int): Context {
    Context(Or(fingerprint, c.fingerprint), Or(source, c.source), Some(eventCount), Some(RecordsOf(c)))
  }

  // ---------------------------------------------------------------------------------------
  // Notes
  // ---------------------------------------------------------------------------------------

  const MAX_NOTE := 256

  const FORBIDDEN: seq<Text> := [
    Lit("raw_payload"), Lit("payload"), Lit("credential"), Lit("password"), Lit("token"), Lit("secret"), Lit("plugin_config")]

  /** Lower-casing as far as it yields ASCII: besides `A` to `Z`, the Kelvin sign and the dotted capital I. */
  function LowerChar(c: CodePoint): Text {
    if 65 <= c <= 90 then [c + 32]
    else if c == 0x212A then [107]
    else if c == 0x130 then [105, 0x307]
    else [c]
  }

  function Lowered(t: Text): Text {
    if t == [] then [] else LowerChar(t[0]) + Lowered(t[1..])
  }

  predicate Forbidden(t: Text) {
    exists f :: f in FORBIDDEN && Contains(Lowered(t), f)
  }

  /** A text that the decision context takes as a note, cut to its length. */
  predicate Notable(t: Text) {
    t != [] && !Forbidden(Take(t, MAX_NOTE))
  }

  /** A fingerprint or source is noted and also stored whole. */
  predicate Storable(t: Text) {
    Notable(t) && |t| <= MAX_NOTE
  }

  lemma {:induction false} LoweredConcat(a: Text, b: Text)
    ensures Lowered(a + b) == Lowered(a) + Lowered(b)
  {
    if a == [] {
      assert a + b == b;
    } else {
      LoweredConcat(a[1..], b);
      assert (a + b)[1..] == a[1..] + b;
    }
  }

  /** A fragment in any spelling and place, among the noted characters, makes a text unfit as a note. */
  lemma {:induction false} FragmentForbids(before: Text, part: Text, after: Text)
    requires Lowered(part) in FORBIDDEN && |before + part| <= MAX_NOTE
    ensures !Notable(before + part + after)
  {
    hide FORBIDDEN, Lowered;
    var rest := Take(after, MAX_NOTE - |before + part|);
    assert Take(before + part + after, MAX_NOTE) == before + part + rest;
    LoweredConcat(before + part, rest);
    LoweredConcat(before, part);
    assert OccursAt(Lowered(before) + Lowered(part) + Lowered(rest), Lowered(part), |Lowered(before)|);
  }

  predicate SpelledAnyCaseAt(t: Text, i: nat, word: string) {
    i + |word| <= |t| && forall j :: 0 <= j < |word| ==>
      t[i + j] == word[j] as nat || ('a' <= word[j] <= 'z' && t[i + j] == word[j] as nat - 32)
  }

  /** The word stands somewhere in the text, in capital or small letters. */
  ghost predicate SpellsAnyCase(t: Text, word: string) {
    exists i: nat :: SpelledAnyCaseAt(t, i, word)
  }

  ghost predicate Ascii(t: Text) {
    forall c :: c in t ==> c < 128
  }

  predicate SmallLetters(word: string) {
    forall c :: c in word ==> 'a' <= c <= 'z' || c == '_'
  }

  lemma {:induction false} LoweredAscii(t: Text)
    requires Ascii(t)
    ensures |Lowered(t)| == |t|
    ensures forall i :: 0 <= i < |t| ==> Lowered(t)[i] == if 'A' as nat <= t[i] <= 'Z' as nat then t[i] + 32 else t[i]
  {
    if t != [] {
      assert t[0] in t && forall c :: c in t[1..] ==> c in t;
      LoweredAscii(t[1..]);
    }
  }

  lemma {:induction false} SpelledLowered(t: Text, word: string)
    requires Ascii(t) && SmallLetters(word)
    ensures Spells(Lowered(t), word) <==> SpellsAnyCase(t, word)
  {
    LoweredAscii(t);
    assert forall j :: 0 <= j < |word| ==> word[j] in word;
    forall i: nat ensures SpelledAt(Lowered(t), i, word) <==> SpelledAnyCaseAt(t, i, word) {}
  }

  /** One of the seven forbidden fragments stands in the text, in any letter case. */
  ghost predicate HoldsForbidden(t: Text) {
    || SpellsAnyCase(t, "raw_payload") || SpellsAnyCase(t, "payload") || SpellsAnyCase(t, "credential")
    || SpellsAnyCase(t, "password") || SpellsAnyCase(t, "token") || SpellsAnyCase(t, "secret")
    || SpellsAnyCase(t, "plugin_config")
  }

  lemma {:induction false} ForbiddenListed()
    ensures Lit("raw_payload") in FORBIDDEN && Lit("payload") in FORBIDDEN && Lit("credential") in FORBIDDEN
    ensures Lit("password") in FORBIDDEN && Lit("token") in FORBIDDEN && Lit("secret") in FORBIDDEN
    ensures Lit("plugin_config") in FORBIDDEN
  {
    hide Lit;
  }

  lemma {:induction false} ForbiddenAre(f: Text)
    requires f in FORBIDDEN
    ensures || f == Lit("raw_payload") || f == Lit("payload") || f == Lit("credential") || f == Lit("password")
            || f == Lit("token") || f == Lit("secret") || f == Lit("plugin_config")
  {
    hide Lit;
  }

  lemma {:induction false} ForbiddenSpelled(t: Text)
    requires Ascii(t)
    ensures Forbidden(t) <==> HoldsForbidden(t)
  {
    hide Spells, SpellsAnyCase, Contains, Lit, FORBIDDEN, Lowered, Ascii;
    FragmentSpelled(t, "raw_payload");
    FragmentSpelled(t, "payload");
    FragmentSpelled(t, "credential");
    FragmentSpelled(t, "password");
    FragmentSpelled(t, "token");
    FragmentSpelled(t, "secret");
    FragmentSpelled(t, "plugin_config");
    ForbiddenListed();
    forall f | f in FORBIDDEN && Contains(Lowered(t), f) ensures HoldsForbidden(t) { ForbiddenAre(f); }
  }

  lemma {:induction false} FragmentSpelled(t: Text, word: string)
    requires Ascii(t) && SmallLetters(word)
    ensures Contains(Lowered(t), Lit(word)) <==> SpellsAnyCase(t, word)
  {
    hide Contains, Spells, SpellsAnyCase, Lowered, Lit;
    ContainsSpelled(Lowered(t), word);
    SpelledLowered(t, word);
  }

  /** An ASCII text can be noted exactly when it is not empty and none of the seven fragments stands
      among its first 256 characters, in any letter case. */
  lemma {:induction false} NotableIff(t: Text)
    requires Ascii(t)
    ensures Notable(t) <==> t != [] && !HoldsForbidden(if |t| <= 256 then t else t[..256])
  {
    hide HoldsForbidden, Forbidden;
    assert forall c :: c in Take(t, MAX_NOTE) ==> c in t;
    ForbiddenSpelled(Take(t, MAX_NOTE));
  }

  // ---------------------------------------------------------------------------------------
  // Problem inputs
  // ---------------------------------------------------------------------------------------

  datatype Input = Input(
    rule: Text, group: Text, severity: Severity, time: int, summary: Text,
    hosts: seq<Text>, services: seq<NonEmpty>, fingerprint: Text, source: Text,
    threshold: int, seconds: int, cap: int)
  {
    function Occurrence(): Windows.Occurrence {
      Windows.Occurrence(fingerprint, time, seconds, threshold, cap)
    }

    /** What the constructor of the upsert input leaves. */
    ghost predicate Valid() {
      && Occurrence().Valid()
      && hosts != [] && SortedBy(Less, hosts) && SortedBy<Text>(Less, services)
    }
  }

  /** The arguments of the upsert constructor. */
  datatype RawInput = RawInput(
    rule: Text, group: Text, severity: Severity, time: int, summary: Text,
    hosts: seq<Text>, services: seq<Text>, fingerprint: Option<Text>, source: Text,
    threshold: int, seconds: int, cap: int)

  datatype InputError =
    | BlankRule | BlankGroup | BlankSummary | BadThreshold | BadWindow | BadCap | ThresholdAboveCap
    | NoHosts | BlankHost | BlankService | BlankFingerprint

  datatype Construction = Constructed(input: Input) | Rejected(error: InputError)

  predicate IsSpace(c: CodePoint) {
    || 9 <= c <= 13 || 28 <= c <= 32 || c == 0x85 || c == 0xA0 || c == 0x1680 || 0x2000 <= c <= 0x200A
    || c == 0x2028 || c == 0x2029 || c == 0x202F || c == 0x205F || c == 0x3000
  }

  predicate Blank(t: Text) {
    forall c :: c in t ==> IsSpace(c)
  }

  function NonEmptyTexts(ts: seq<Text>): (r: seq<NonEmpty>)
    requires forall t :: t in ts ==> t != []
    ensures |r| == |ts| && forall i :: 0 <= i < |ts| ==> r[i] == ts[i]
  {
    if ts == [] then []
    else
      assert ts[0] in ts && forall t :: t in ts[1..] ==> t in ts;
      [ts[0]] + NonEmptyTexts(ts[1..])
  }

  function JoinColon(a: Text, b: Text, c: Text, d: Text): Text {
    a + [58] + b + [58] + c + [58] + d
  }

  /** The constructor; `iso` prints a timestamp. */
  function Construct(iso: int -> Text, raw: RawInput): Construction {
    if Blank(raw.rule) then Rejected(BlankRule)
    else if Blank(raw.group) then Rejected(BlankGroup)
    else if Blank(raw.summary) then Rejected(BlankSummary)
    else if raw.threshold < 1 then Rejected(BadThreshold)
    else if raw.seconds < 1 then Rejected(BadWindow)
    else if !(1 <= raw.cap <= MAX_WINDOW_FINGERPRINTS) then Rejected(BadCap)
    else if raw.threshold > raw.cap then Rejected(ThresholdAboveCap)
    else
      var hosts := SortUnique(Less, raw.hosts);
      if hosts == [] then Rejected(NoHosts)
      else if exists h :: h in hosts && Blank(h) then Rejected(BlankHost)
      else
        var services := SortUnique(Less, raw.services);
        if exists s :: s in services && Blank(s) then Rejected(BlankService)
        else
          var fingerprint := if raw.fingerprint.Some? then raw.fingerprint.value
                             else JoinColon(raw.rule, raw.group, iso(raw.time), raw.summary);
          if Blank(fingerprint) then Rejected(BlankFingerprint)
          else
            assert forall t :: t in services ==> t != [] by { assert Blank([]); }
            Constructed(Input(raw.rule, raw.group, raw.severity, raw.time, raw.summary, hosts,
                              NonEmptyTexts(services), fingerprint, raw.source, raw.threshold, raw.seconds, raw.cap))
  }

  /** The check behind each error, and the order in which they are made. */
  ghost predicate Violates(raw: RawInput, e: InputError) {
    match e
    case BlankRule => Blank(raw.rule)
    case BlankGroup => Blank(raw.group)
    case BlankSummary => Blank(raw.summary)
    case BadThreshold => raw.threshold < 1
    case BadWindow => raw.seconds < 1
    case BadCap => raw.cap < 1 || raw.cap > 100
    case ThresholdAboveCap => raw.threshold > raw.cap
    case NoHosts => raw.hosts == []
    case BlankHost => exists h :: h in raw.hosts && Blank(h)
    case BlankService => exists s :: s in raw.services && Blank(s)
    case BlankFingerprint => raw.fingerprint.Some? && Blank(raw.fingerprint.value)
  }

  function CheckNumber(e: InputError): nat {
    match e
    case BlankRule => 0 case BlankGroup => 1 case BlankSummary => 2 case BadThreshold => 3 case BadWindow => 4
    case BadCap => 5 case ThresholdAboveCap => 6 case NoHosts => 7 case BlankHost => 8 case BlankService => 9
    case BlankFingerprint => 10
  }

  /** What construction accepts, and that every constructed input is in normal form. */
  lemma {:induction false} ConstructionNormalises(iso: int -> Text, raw: RawInput)
    ensures Construct(iso, raw).Constructed? <==>
              && !Blank(raw.rule) && !Blank(raw.group) && !Blank(raw.summary)
              && raw.seconds >= 1 && 1 <= raw.threshold <= raw.cap <= 100
              && raw.hosts != [] && (forall h :: h in raw.hosts ==> !Blank(h))
              && (forall s :: s in raw.services ==> !Blank(s))
              && (raw.fingerprint.Some? ==> !Blank(raw.fingerprint.value))
    ensures Construct(iso, raw).Constructed? ==>
              var input := Construct(iso, raw).input;
              && input.Valid()
              && (forall h :: h in input.hosts <==> h in raw.hosts)
              && (forall s :: s in raw.services <==> s in input.services)
  {
    hide SortUnique, Blank, Input.Valid;
    LessIsStrictTotal();
    SortUniqueSorts(Less, raw.hosts);
    SortUniqueSorts(Less, raw.services);
    var hosts, services := SortUnique(Less, raw.hosts), SortUnique(Less, raw.services);
    assert raw.hosts != [] ==> raw.hosts[0] in hosts;
    assert hosts != [] ==> hosts[0] in raw.hosts;
    JoinedIsNotBlank(raw.rule, raw.group, iso(raw.time), raw.summary);
    EmptyIsBlank();
    if Construct(iso, raw).Constructed? {
      InputFromParts(Construct(iso, raw).input, services);
    }
  }

  /** Construction takes the other arguments over, and makes up a fingerprint where none is given. */
  lemma {:induction false} ConstructionKeeps(iso: int -> Text, raw: RawInput)
    requires Construct(iso, raw).Constructed?
    ensures var input := Construct(iso, raw).input;
            && input.rule == raw.rule && input.group == raw.group && input.severity == raw.severity
            && input.time == raw.time && input.summary == raw.summary && input.source == raw.source
            && input.threshold == raw.threshold && input.seconds == raw.seconds && input.cap == raw.cap
            && (raw.fingerprint.Some? ==> input.fingerprint == raw.fingerprint.value)
            && (raw.fingerprint.None? ==>
                  input.fingerprint == raw.rule + Lit(":") + raw.group + Lit(":") + iso(raw.time) + Lit(":") + raw.summary)
  {
    hide SortUnique, Blank;
    assert Lit(":") == [58];
  }

  /** A rejected construction names the first check that fails. */
  lemma {:induction false} ConstructionRejects(iso: int -> Text, raw: RawInput)
    requires Construct(iso, raw).Rejected?
    ensures var e := Construct(iso, raw).error;
            Violates(raw, e) && forall d :: CheckNumber(d) < CheckNumber(e) ==> !Violates(raw, d)
  {
    hide SortUnique, Blank, NonEmptyTexts, Violates, JoinColon;
    ListsViolate(raw);
    ScalarsViolate(raw);
    JoinedIsNotBlank(raw.rule, raw.group, iso(raw.time), raw.summary);
  }

  lemma {:induction false} ListsViolate(raw: RawInput)
    ensures Violates(raw, NoHosts) <==> SortUnique(Less, raw.hosts) == []
    ensures Violates(raw, BlankHost) <==> exists h :: h in SortUnique(Less, raw.hosts) && Blank(h)
    ensures Violates(raw, BlankService) <==> exists s :: s in SortUnique(Less, raw.services) && Blank(s)
  {
    hide SortUnique, Blank;
    LessIsStrictTotal();
    SortUniqueSorts(Less, raw.hosts);
    SortUniqueSorts(Less, raw.services);
    var hosts := SortUnique(Less, raw.hosts);
    assert raw.hosts != [] ==> raw.hosts[0] in hosts;
    assert hosts != [] ==> hosts[0] in raw.hosts;
  }

  lemma {:induction false} ScalarsViolate(raw: RawInput)
    ensures Violates(raw, BlankRule) <==> Blank(raw.rule)
    ensures Violates(raw, BlankGroup) <==> Blank(raw.group)
    ensures Violates(raw, BlankSummary) <==> Blank(raw.summary)
    ensures Violates(raw, BadThreshold) <==> raw.threshold < 1
    ensures Violates(raw, BadWindow) <==> raw.seconds < 1
    ensures Violates(raw, BadCap) <==> !(1 <= raw.cap <= MAX_WINDOW_FINGERPRINTS)
    ensures Violates(raw, ThresholdAboveCap) <==> raw.threshold > raw.cap
    ensures Violates(raw, BlankFingerprint) <==> raw.fingerprint.Some? && Blank(raw.fingerprint.value)
  {
    hide Blank;
  }

  lemma {:induction false} EmptyIsBlank()
    ensures Blank([])
  {}

  lemma {:induction false} JoinedIsNotBlank(a: Text, b: Text, c: Text, d: Text)
    ensures !Blank(JoinColon(a, b, c, d))
  {
    assert 58 in JoinColon(a, b, c, d);
  }

  lemma {:induction false} InputFromParts(input: Input, services: seq<Text>)
    requires input.Occurrence().Valid() && input.hosts != [] && SortedBy(Less, input.hosts) && SortedBy(Less, services)
    requires forall t :: t in services ==> t != []
    requires input.services == NonEmptyTexts(services)
    ensures input.Valid() && forall s: Text :: s in services <==> s in input.services
  {
    assert |input.services| == |services| && forall i :: 0 <= i < |services| ==> input.services[i] == services[i];
    forall i, j | 0 <= i < j < |input.services| ensures Less(input.services[i], input.services[j]) {
      assert Less(services[i], services[j]);
    }
  }

  function ServicesOf(services: seq<NonEmpty>): seq<Option<NonEmpty>> {
    if services == [] then [None] else seq(|services|, i requires 0 <= i < |services| => Some(services[i]))
  }

  function HostObjects(host: Text, services: seq<Option<NonEmpty>>): seq<Object> {
    seq(|services|, i requires 0 <= i < |services| => Object(host, services[i]))
  }

  function ObjectsFor(hosts: seq<Text>, services: seq<Option<NonEmpty>>): seq<Object> {
    if hosts == [] then [] else HostObjects(hosts[0], services) + ObjectsFor(hosts[1..], services)
  }

  function InputObjects(input: Input): seq<Object> {
    ObjectsFor(input.hosts, ServicesOf(input.services))
  }

  ghost predicate Reports(input: Input, o: Object) {
    o.host in input.hosts
    && (if input.services == [] then o.service == None else o.service.Some? && o.service.value in input.services)
  }

  lemma {:induction false} ObjectsForMembers(hosts: seq<Text>, services: seq<Option<NonEmpty>>)
    ensures forall o :: o in ObjectsFor(hosts, services) <==> o.host in hosts && o.service in services
  {
    if hosts != [] {
      ObjectsForMembers(hosts[1..], services);
      forall o ensures o in HostObjects(hosts[0], services) <==> o.host == hosts[0] && o.service in services {
        if o.host == hosts[0] && o.service in services {
          var i :| 0 <= i < |services| && services[i] == o.service;
          assert HostObjects(hosts[0], services)[i] == o;
        }
      }
    }
  }

  lemma {:induction false} InputObjectsAreReported(input: Input)
    ensures forall o :: o in InputObjects(input) <==> Reports(input, o)
    ensures input.hosts != [] ==> InputObjects(input) != []
  {
    var services := ServicesOf(input.services);
    ObjectsForMembers(input.hosts, services);
    forall s ensures s in services <==>
        (if input.services == [] then s == None else s.Some? && s.value in input.services)
    {
      if s.Some? && s.value in input.services {
        var i :| 0 <= i < |input.services| && input.services[i] == s.value;
        assert services[i] == s;
      }
    }
    if input.hosts != [] {
      assert services[0] in services && input.hosts[0] in input.hosts;
      assert Object(input.hosts[0], services[0]) in InputObjects(input);
    }
  }

  /** The initial listing is not sorted by a later step; it is already in order. */
  lemma {:induction false} ObjectsForSorted(hosts: seq<Text>, services: seq<NonEmpty>)
    requires SortedBy(Less, hosts) && SortedBy<Text>(Less, services)
    ensures SortedBy(ObjectLess, ObjectsFor(hosts, ServicesOf(services)))
  {
    if hosts != [] {
      var options := ServicesOf(services);
      ObjectsForSorted(hosts[1..], services);
      ObjectsForMembers(hosts[1..], options);
      var first, rest := HostObjects(hosts[0], options), ObjectsFor(hosts[1..], options);
      forall i, j | 0 <= i < j < |first| ensures ObjectLess(first[i], first[j]) {
        assert first[i] == Object(hosts[0], Some(services[i])) && first[j] == Object(hosts[0], Some(services[j]));
        assert Less(services[i], services[j]);
      }
      forall i, j | 0 <= i < |first| && 0 <= j < |rest| ensures ObjectLess(first[i], rest[j]) {
        assert rest[j] in rest;
      }
    }
  }

  // ---------------------------------------------------------------------------------------
  // Rows
  // ---------------------------------------------------------------------------------------

  datatype Row = Row(
    rule: Text, group: Text, status: Status, severity: Severity, summary: Text, eventCount: int,
    hosts: seq<Text>, services: seq<Text>, objects: seq<Object>, agg: Aggregate,
    startTime: int, context: Context, acknowledgedAt: Option<int>, acknowledgedBy: Option<Text>,
    resolvedAt: Option<int>, closedAt: Option<int>, notifiedAt: Option<int>)

  function Take<T>(s: seq<T>, n: nat): seq<T> {
    if |s| <= n then s else s[..n]
  }

  function HostsIn(objects: seq<Object>): seq<Text> {
    seq(|objects|, i requires 0 <= i < |objects| => objects[i].host)
  }

  function ServicesIn(objects: seq<Object>): seq<Text> {
    if objects == [] then []
    else (if objects[0].service.None? then [] else [objects[0].service.value]) + ServicesIn(objects[1..])
  }

  function AffectedHosts(objects: seq<Object>): seq<Text> {
    Take(SortUnique(Less, HostsIn(objects)), MAX_AFFECTED)
  }

  function AffectedServices(objects: seq<Object>): seq<Text> {
    Take(SortUnique(Less, ServicesIn(objects)), MAX_AFFECTED)
  }

  function SortObjects(objects: seq<Object>): seq<Object> {
    SortUnique(ObjectLess, objects)
  }

  function WithObjects(row: Row, objects: seq<Object>): Row {
    row.(objects := objects, hosts := AffectedHosts(objects), services := AffectedServices(objects))
  }

  ghost predicate WindowValid(a: Aggregate) {
    && a.window.endedAt == a.lastUpdate
    && a.window.seconds >= 1
    && a.window.counted == |a.window.stamps| <= a.window.maxSize <= MAX_WINDOW_FINGERPRINTS
    && (a.window.counted >= a.window.threshold ==> a.crossed)
    && (forall f :: f in a.window.stamps ==> a.window.startedAt <= a.window.stamps[f] <= a.window.endedAt)
  }

  /** The consistency of one stored row. */
  ghost predicate RowValid(row: Row) {
    && SortedBy(ObjectLess, row.objects)
    && (row.status.Open? ==> row.objects != [])
    && (row.status.Resolved? ==> row.objects == [])
    && row.hosts == AffectedHosts(row.objects) && row.services == AffectedServices(row.objects)
    && WindowValid(row.agg) && row.startTime <= row.agg.lastUpdate
    && row.eventCount >= 1
    && RecordsValid(RecordsOf(row.context))
  }

  // ---------------------------------------------------------------------------------------
  // Operations on one row
  // ---------------------------------------------------------------------------------------

  datatype Action =
    | Problem(input: Input)
    | HostRecovery(host: Text, fingerprint: Text, source: Text, now: int)
    | ServiceRecovery(host: Text, service: NonEmpty, fingerprint: Text, source: Text, now: int)
    | Acknowledge(id: Id, operator: Text, now: int)
    | Close(id: Id, operator: Text, reason: Text, now: int)
    | Expire(now: int)
    | Notify(id: Id, plugin: Text, result: NotificationResult, now: int)
  {
    predicate IsRecovery() {
      HostRecovery? || ServiceRecovery?
    }
  }

  /** Does a recovery take this object away? */
  predicate Covers(action: Action, o: Object)
    requires action.IsRecovery()
  {
    if action.HostRecovery? then o.host == action.host else o == Object(action.host, Some(action.service))
  }

  function Remaining(objects: seq<Object>, action: Action): seq<Object>
    requires action.IsRecovery()
  {
    if objects == [] then []
    else (if Covers(action, objects[0]) then [] else [objects[0]]) + Remaining(objects[1..], action)
  }

  predicate Stale(row: Row, now: int) {
    now > row.agg.lastUpdate + row.agg.window.seconds * MICROS
  }

  /** The WHERE clause: does the operation pick this row? */
  predicate Selects(action: Action, id: Id, row: Row) {
    match action
    case Problem(input) => row.rule == input.rule && row.group == input.group && row.status.Open?
    case HostRecovery(_, _, _, _) => row.status.Open? && exists o :: o in row.objects && Covers(action, o)
    case ServiceRecovery(_, _, _, _, _) => row.status.Open? && exists o :: o in row.objects && Covers(action, o)
    case Acknowledge(target, _, _) => id == target && row.status.Open?
    case Close(target, _, _, _) => id == target && row.status.Open?
    case Expire(now) => row.status.Open? && Stale(row, now)
    case Notify(target, _, _, _) => id == target
  }

  /** A recovery or operator action notes its texts on every row it changes; one bad text refuses it. */
  predicate Refused(action: Action) {
    match action
    case HostRecovery(host, fingerprint, source, _) =>
      !(Notable(host) && Storable(fingerprint) && Storable(source))
    case ServiceRecovery(host, service, fingerprint, source, _) =>
      !(Notable(host) && Notable(service) && Storable(fingerprint) && Storable(source))
    case Acknowledge(_, operator, _) => !Notable(operator)
    case Close(_, operator, reason, _) => !(Notable(operator) && Notable(reason))
    case _ => false
  }

  /** Changing the row raises: a note is refused, for an expiry that of the row's rule name, or
      there would be too many delivery records. */
  predicate Fails(action: Action, row: Row) {
    || Refused(action)
    || (action.Expire? && !Notable(row.rule))
    || (action.Notify?
        && |PutRecord(RecordsOf(row.context), Record(action.plugin, SafeResult(action.result)))| > MAX_DELIVERY_RECORDS)
  }

  lemma {:induction false} FailsIff(action: Action, row: Row)
    ensures action.Problem? ==> !Fails(action, row)
    ensures action.IsRecovery() || action.Acknowledge? || action.Close? ==> (Fails(action, row) <==> Refused(action))
    ensures action.Expire? ==> (Fails(action, row) <==> !Notable(row.rule))
  {
    hide Notable;
  }

  /** The decision context written last by the processing of a problem. */
  function ProblemContext(input: Input, eventCount: int, stored: Context): Context {
    Context(Some(input.fingerprint), Some(input.source), Some(eventCount), Some(RecordsOf(stored)))
  }

  /** The context of the first of the two writes: no event count yet and no delivery records. */
  function PreliminaryContext(input: Input): Context {
    Context(Some(input.fingerprint), Some(input.source), None, None)
  }

  function InsertedRow(input: Input): Row {
    WithObjects(
      Row(input.rule, input.group, Open, input.severity, input.summary, 1, [], [], [],
          Start(input.Occurrence()), input.time, PreliminaryContext(input), None, None, None, None, None),
      InputObjects(input))
  }

  /** The update of `record_problem_incident`, before the final context is written. */
  function UpdatedRow(row: Row, input: Input): Row {
    var o := input.Occurrence();
    var counted := PushOutcome(row.agg, o).counted;
    WithObjects(row, SortObjects(row.objects + InputObjects(input))).(
      eventCount := row.eventCount + (if counted then 1 else 0),
      severity := MaxSeverity(row.severity, input.severity),
      summary := if counted then input.summary else row.summary,
      context := PreserveRecords(row.context, PreliminaryContext(input)),
      agg := Push(row.agg, o))
  }

  function Finished(row: Row, input: Input): Row {
    row.(context := ProblemContext(input, row.eventCount, row.context))
  }

  function RecoveredRow(row: Row, action: Action): Row
    requires action.IsRecovery()
  {
    var left := Remaining(row.objects, action);
    var noted := row.(context := LifecycleContext(row.context, Some(action.fingerprint), Some(action.source), row.eventCount));
    if left == [] then WithObjects(noted, []).(status := Resolved, resolvedAt := Some(action.now))
    else WithObjects(noted, SortObjects(left))
  }

  function NotifiedRow(row: Row, action: Action): Row
    requires action.Notify?
  {
    var records := PutRecord(RecordsOf(row.context), Record(action.plugin, SafeResult(action.result)));
    row.(context := row.context.(records := Some(records)),
         notifiedAt := if action.result.success then Some(action.now) else row.notifiedAt)
  }

  function Effect(action: Action, row: Row): Row {
    match action
    case Problem(input) => Finished(UpdatedRow(row, input), input)
    case HostRecovery(_, _, _, _) => RecoveredRow(row, action)
    case ServiceRecovery(_, _, _, _, _) => RecoveredRow(row, action)
    case Acknowledge(_, operator, now) =>
      row.(acknowledgedAt := if row.acknowledgedAt.None? then Some(now) else row.acknowledgedAt,
           acknowledgedBy := Some(operator),
           context := LifecycleContext(row.context, None, None, row.eventCount))
    case Close(_, _, _, now) =>
      row.(status := Closed, closedAt := Some(now),
           context := LifecycleContext(row.context, None, None, row.eventCount))
    case Expire(now) =>
      row.(status := Closed, closedAt := Some(now),
           context := LifecycleContext(row.context, None, None, row.eventCount))
    case Notify(_, _, _, _) => NotifiedRow(row, action)
  }

  // ---------------------------------------------------------------------------------------
  // What every operation keeps
  // ---------------------------------------------------------------------------------------

  lemma {:induction false} RemainingMembers(objects: seq<Object>, action: Action)
    requires action.IsRecovery()
    ensures forall o :: o in Remaining(objects, action) <==> o in objects && !Covers(action, o)
    ensures SortedBy(ObjectLess, objects) ==> SortedBy(ObjectLess, Remaining(objects, action))
  {
    if objects != [] {
      RemainingMembers(objects[1..], action);
      assert objects == [objects[0]] + objects[1..];
      if SortedBy(ObjectLess, objects) && !Covers(action, objects[0]) {
        var rest := Remaining(objects[1..], action);
        forall i | 0 <= i < |rest| ensures ObjectLess(objects[0], rest[i]) {
          assert rest[i] in objects[1..];
        }
      }
    }
  }

  /** Re-sorting what a recovery leaves changes nothing. */
  lemma {:induction false} RemainingSorted(objects: seq<Object>, action: Action)
    requires action.IsRecovery() && SortedBy(ObjectLess, objects)
    ensures SortObjects(Remaining(objects, action)) == Remaining(objects, action)
  {
    ObjectLessIsStrictTotal();
    RemainingMembers(objects, action);
    var left := Remaining(objects, action);
    SortUniqueSorts(ObjectLess, left);
    SortedUnique(ObjectLess, SortObjects(left), left);
  }

  lemma {:induction false} PushKeepsWindow(a: Aggregate, o: Occurrence)
    requires WindowValid(a) && o.Valid()
    ensures WindowValid(Push(a, o)) && WindowValid(Start(o))
    ensures Push(a, o).lastUpdate >= a.lastUpdate
  {
    var all := Counted(a.lastUpdate, a.window.stamps, o);
    NewestCount(all, o.cap);
    NewestSubmap(all, o.cap);
  }

  lemma {:induction false} InsertKeepsValid(input: Input)
    requires input.Valid()
    ensures RowValid(InsertedRow(input)) && RowValid(Finished(InsertedRow(input), input))
  {
    ObjectsForSorted(input.hosts, input.services);
    InputObjectsAreReported(input);
  }

  lemma {:induction false} UpdateKeepsValid(row: Row, input: Input)
    requires RowValid(row) && row.status.Open? && input.Valid()
    ensures RowValid(UpdatedRow(row, input)) && RowValid(Finished(UpdatedRow(row, input), input))
    ensures forall o :: o in UpdatedRow(row, input).objects <==> o in row.objects || Reports(input, o)
  {
    ObjectLessIsStrictTotal();
    InputObjectsAreReported(input);
    SortUniqueSorts(ObjectLess, row.objects + InputObjects(input));
    PushKeepsWindow(row.agg, input.Occurrence());
    assert row.objects[0] in UpdatedRow(row, input).objects;
  }

  lemma {:induction false} RecoveryKeepsValid(row: Row, action: Action)
    requires RowValid(row) && action.IsRecovery() && row.status.Open?
    ensures RowValid(RecoveredRow(row, action))
    ensures RecoveredRow(row, action).objects == Remaining(row.objects, action)
    ensures RecoveredRow(row, action).status.Resolved? <==> Remaining(row.objects, action) == []
  {
    RemainingMembers(row.objects, action);
    RemainingSorted(row.objects, action);
  }

  ghost predicate ActionValid(action: Action) {
    action.Problem? ==> action.input.Valid()
  }

  /** Every operation keeps every row consistent. */
  lemma {:induction false} EffectKeepsValid(action: Action, id: Id, row: Row)
    requires RowValid(row) && ActionValid(action) && Selects(action, id, row) && !Fails(action, row)
    ensures RowValid(Effect(action, row))
  {
    match action
    case Problem(input) => UpdateKeepsValid(row, input);
    case HostRecovery(_, _, _, _) => RecoveryKeepsValid(row, action);
    case ServiceRecovery(_, _, _, _, _) => RecoveryKeepsValid(row, action);
    case Notify(_, plugin, result, _) => PutRecordPuts(RecordsOf(row.context), Record(plugin, SafeResult(result)));
    case _ =>
  }

  /** No operation moves a row to another key or back to OPEN. */
  lemma {:induction false} EffectKeepsKey(action: Action, row: Row)
    ensures Effect(action, row).rule == row.rule && Effect(action, row).group == row.group
    ensures Effect(action, row).status.Open? ==> row.status.Open?
    ensures Effect(action, row).startTime == row.startTime
  {}
}
