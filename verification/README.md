# Correlia: a verified model of its correlation engine

Correlia receives monitoring events, collects problem reports into incidents, decides once per
incident whether to notify, and lets recoveries, operators and expiry end incidents. This project
models that engine in Dafny and proves what its documentation promises of it, together with the
components around it that keep something bounded: the audit trail, the rate limiter, the migration
tool and the topology enrichment. `dafny verify dfyconfig.toml` checks everything.

## How the model is laid out

- `Order`, `Ranks`: Python strings as code point sequences, their order, stable sorting,
  `sorted(set(...))`, and "the newest k entries" defined by counting who outranks an entry.
- `Windows`, `Crossings`: the sliding fingerprint window, one step and whole streams.
- `Incidents`, `Store`: rows, the operations on them (`Selects` is a WHERE clause, `Effect` the row
  an update leaves) and the repository as an object whose methods change a table in place.
- `Lives`, `Columns`: one row under any sequence of operations of any kind.
- `Transactions`, `Histories`: concurrent transactions, step by step, at READ COMMITTED.
  `Serialisability` and `Anomaly` give the exact conditions under which they behave as whole
  operations in some order; `Reached` ties every row they leave to a life.
- `Json`, `Canonical`, `Parsing`: serialisation, and a reader that takes it back; `Redaction`,
  `Payloads`, `Tags`, `Cursors`, `Paging`: the audit trail.
- `RateLimit`: the fixed-window limiter with its sweep.
- `Reports`, `ReportReader`, `Promotion`, `Priorities`: the migration tool, the reader of its report
  file and the rule engine that consumes its rules.
- `Topology`: CIDR overlap rejection and tag enrichment.
- `Ownership`: the claim and receipt that guard one verification project on a Docker daemon.

Times are integers of microseconds in the engine and real seconds in the limiter. The clock, the
HMAC, the lower-casing of tag keys and values, regular expressions, the printing of timestamps and
the JSON text inside a cursor are parameters. Host, service, fingerprint and key names are arbitrary
texts.

## What came out differently than one might expect

- The window is a function of the history for more streams than those with distinct fingerprints:
  redeliveries are harmless as long as they repeat their timestamp (`Windows.Consistent`). The
  fingerprint cap is invisible in the crossing marker even when window, threshold and cap change
  from event to event.
- The replay check stands first in the dispatch decision. It can swallow the only dispatch of an
  incident, and does so exactly when a rule's threshold may be lowered while the incident is open
  (`Crossings.SwallowedIffLowered`). With an unlowered threshold it never does.
- Recoveries, operator actions and expiry note the names they act on, and a note must not contain
  `token`, `payload`, `secret` and four other fragments (`Incidents.FragmentForbids`). So a recovery
  of host `token-gw` fails whenever it picks a row, and an incident opened for that host is never
  resolved (`Lives.ForbiddenNeverResolves`); one stale row of a rule named `payload-size` makes a whole expiry batch
  fail. The operations promise what they do exactly when no such text is involved
  (`Store.SucceedsIff`, `Store.IncidentStore.ExpireStaleIncidents`).
- Transactions are serialisable in commit order row by row, but not always as whole operations: a
  recovery can miss a row that a concurrent problem brings under it after its selection has started.
  The exact condition is one on the operations alone: every interleaving of a set of operations,
  from every table, is a sequence of whole operations in commit order exactly when no problem among
  them reports an object that a recovery among them covers (`Serialisability.WholeIffCompatible`);
  recoveries and operator actions whose texts are refused change nothing and do not count.
  Operator actions and delivery records have to name rows that exist when they look; otherwise they
  must not meet problems at all (`Serialisability.WholeIffAlsoUntargeted`). Where a problem does
  report a covered object, a table, one more harmless recovery and an interleaving exist that no
  order of the three operations explains, and only there (`Anomaly.UnexplainedIffEndangered`).
- A closed interval as long as the window can hold twice the limit of grants, a half-open one at
  most one less; both are reached for every limit and window (`RateLimit.RateBoundIsTight`).
- A sweep is invisible to a later check exactly when that check uses a window no longer than the
  stored one (`RateLimit.SweepNeedsStoredWindow`).
- The ownership lock of the verification tooling protects each invocation's resources in every
  interleaving and under every failing command, deliberate cleanups included, as long as none of
  those frees a claim that its invocation still relies on: one that uses the project, is about to
  record its receipt, or is cleaning up short of its own release. Each step that does makes it
  possible that an owned cleanup removes another invocation's resources, and no other step does
  (`Ownership.BreakingIffTrespass`).
- An issue takes at least 67 bytes, so a migration report never carries more than 963 of the 1,000
  issues allowed.
- The migration tool measures a report with a truncation flag of `false` and may then set it, which
  saves a byte. A truncated report of exactly 65,536 bytes is accepted by the reader and still never
  written, unless it counts 1,000 issues (`Reports.AcceptedNotLeft`).

## Model

| member | source | states |
|---|---|---|
| Order.LessIsStrictTotal | app/persistence/incidents.py:288-292 | the order by code point that every sort relies on is a strict total order |
| Order.LessIsLexicographic | app/persistence/incidents.py:288-292 | texts compare by the first code point in which they differ, and a text comes before its continuations |
| Order.SortUniqueSorts | app/persistence/incidents.py:100-107 | `sorted(set(...))` lists the same elements in strictly increasing order |
| Ranks.NewestCount | app/persistence/incidents.py:288-292 | the newest k entries number min(k, size), and all entries are kept when there are at most k |
| Ranks.SinceNewest | app/persistence/incidents.py:272-292 | pruning by age commutes with keeping the newest k |
| Ranks.NewestInsert | app/persistence/incidents.py:285-292 | an eviction before an insertion does not change what the insertion and a later eviction leave |
| Windows.SortNewestFirst | app/persistence/incidents.py:288-292 | lists every entry once, by (timestamp, fingerprint) descending |
| Windows.CutIsNewest | app/persistence/incidents.py:288-292 | cutting the descending listing after k entries leaves exactly the entries that fewer than k others outrank |
| Windows.ComputeNextWindow | app/persistence/incidents.py:264-314 | the loop of pruning, adding, sorting and cutting computes the specified next window and the replay, inside and counted flags |
| Windows.WindowKeeps | app/persistence/incidents.py:264-314 | for any stream the window keeps nothing older than one window length before the latest event, each fingerprint with the time it was first counted at, and of those the newest `cap` |
| Windows.WindowRefinement | app/persistence/incidents.py:248-314 | after any stream with a fixed rule whose redeliveries repeat their timestamps, in any order of arrival, the window holds the newest `cap` entries of the whole history within one window length of the latest event time |
| Windows.ArrivalOrderIrrelevant | app/persistence/incidents.py:248-314 | two streams over the same events leave the same window, whatever their order and repetitions |
| Windows.CountIsRecentHistory | app/persistence/incidents.py:597-600 | the count is the number of recent distinct fingerprints cut at the cap, and reaches the threshold exactly when that many are recent |
| Crossings.CapTransparency | app/persistence/incidents.py:97-98 | with and without the fingerprint cap every valid stream sets the crossing marker and reports the first transition at the same step, also with rule parameters that change |
| Crossings.ThresholdAboveCapNeverCrosses | app/persistence/incidents.py:97-98 | the construction check is needed: with a threshold above the cap the capped window never crosses although the uncapped one does |
| Crossings.ReplayNeverFirst | app/persistence/incidents.py:280-286 | under an unlowered threshold a replay is never the first transition, a first transition was counted, and a dispatch is planned exactly when the marker becomes set |
| Crossings.ExactlyOneDispatch | app/processing/incident_manager.py:249-258 | over a stream with an unlowered threshold the planned dispatches number one if the marker is set and none otherwise |
| Crossings.SwallowedIffLowered | app/processing/incident_manager.py:249-258 | an incident whose first transition the replay check swallows exists for two thresholds exactly when the later one is lower |
| Incidents.FragmentForbids | app/domain/incidents.py:37-45 | a text that spells a forbidden fragment, in any letter case, within its first 256 characters cannot be noted |
| Incidents.NotableIff | app/domain/incidents.py:37-45 | an ASCII text can be noted exactly when it is not empty and none of the seven fragments stands in its first 256 characters in any letter case |
| Incidents.ConstructionNormalises | app/persistence/incidents.py:79-132 | which arguments construction accepts, and that an accepted input has valid bounds and sorted distinct hosts and services with the same members |
| Incidents.ConstructionKeeps | app/persistence/incidents.py:79-132 | an accepted input has the other arguments unchanged, and a fingerprint of rule, group, time and summary where none was given |
| Incidents.ConstructionRejects | app/persistence/incidents.py:79-120 | a rejection names the first failing check in the order of the source |
| Incidents.InputObjectsAreReported | app/persistence/incidents.py:218-225 | the objects of an input are the pairs of its hosts and services, or the bare hosts, and at least one |
| Incidents.PutRecordPuts | app/persistence/incidents.py:346-364 | storing a delivery record replaces that of the plugin, keeps all others and the order by plugin, and adds at most one |
| Incidents.RemainingMembers | app/persistence/incidents.py:865-871 | a recovery leaves the objects it does not cover, in order |
| Incidents.UpdateKeepsValid | app/persistence/incidents.py:597-627 | a problem update keeps the row consistent and makes its objects the union of the stored and the reported ones |
| Incidents.RecoveryKeepsValid | app/persistence/incidents.py:799-847 | a recovery keeps the row consistent and resolves it exactly when nothing remains |
| Incidents.EffectKeepsValid | app/persistence/incidents.py:560-640 | every operation keeps objects strictly sorted, OPEN rows non-empty, RESOLVED rows empty, columns, counts, marker and delivery records consistent |
| Incidents.EffectKeepsKey | app/domain/incidents.py:273-283 | no operation changes a row's key or start time or brings it back to OPEN |
| Store.NoDispatch | app/processing/incident_manager.py:249-258 | no reason against a dispatch remains exactly for a first transition that is not a replay |
| Store.ReasonTellsMarker | app/processing/incident_manager.py:249-258 | with an unlowered threshold: no reason exactly when the marker becomes set, `already_notified` exactly when it was set before, `below_threshold` exactly when it stays unset, replays aside |
| Store.OutcomesTell | app/persistence/incidents.py:597-679 | for an inserted and an updated row the outcome's flags mean what they say: crossed is the stored marker, first that it became set, window crossed that the count reached the threshold, inside and replay are told from the stored window |
| Store.ReasonsTell | app/processing/incident_manager.py:249-258 | each reason is equivalent to its flags, and a new incident dispatches exactly at a threshold of one and is below the threshold otherwise |
| Store.UpdatesKeepValid | app/persistence/incidents.py:850-994 | updating any selected rows keeps every row consistent and one OPEN row per rule and group |
| Store.SucceedsIff | app/domain/incidents.py:98-112 | a recovery or operator action raises exactly when it picks a row and one of its texts cannot be noted |
| Store.ProblemSelectsOne | app/persistence/incidents.py:587-595 | the partial unique index makes a problem's selection at most one row |
| Store.AggregateTellsOutcome | app/processing/lifecycle.py:189-218 | the combined result of a recovery says resolved, noop and removed exactly when some row was resolved, none changed, some changed, and lists exactly the changed rows |
| Store.ResultAdds | app/processing/lifecycle.py:189-218 | the combined result lists the incidents in order and adds up the previous counts |
| Store.HostCountIsDistinct | app/persistence/incidents.py:228-234 | the previous host count is the number of distinct hosts of the row |
| Store.ServiceCountIsDistinct | app/persistence/incidents.py:228-234 | the previous service count is the number of distinct services of the row |
| Store.RecoveryRemovesOne | app/persistence/incidents.py:864-871 | a host recovery takes exactly one distinct host from each row it picks, a service recovery exactly one object |
| Store.IncidentStore.constructor | app/persistence/incidents.py:642-680 | an empty table is consistent |
| Store.IncidentStore.RecordProblem | app/persistence/incidents.py:560-680 | inserts a new row or updates the one OPEN row of the key, keeps the table consistent, and answers with flags and count that agree with the row before and the stored row |
| Store.IncidentStore.ApplyProblem | app/processing/incident_manager.py:77-190 | the two writes leave the specified table; no reason against a dispatch remains exactly for a first transition that is not a replay, and without an OPEN row of the key exactly for a threshold of one, `below_threshold` otherwise |
| Store.IncidentStore.ResolveRecovery | app/persistence/incidents.py:850-994 | succeeds exactly when no OPEN row holds a named object or its host, service, fingerprint and source can be noted; then every OPEN row loses exactly the objects of the host, or the one object, and is resolved now exactly when it has none left; one write result for each changed row tells that and the distinct hosts and services before; otherwise nothing changes |
| Store.IncidentStore.AckOpenIncident | app/persistence/incidents.py:997-1058 | acknowledges an OPEN row and leaves a row in another state as it is; the report names the row, what happened and its previous counts, and there is none for a missing row; fails, changing nothing, exactly for an OPEN row and an operator name that cannot be noted |
| Store.IncidentStore.CloseOpenIncident | app/persistence/incidents.py:1061-1125 | closes an OPEN row and leaves a row in another state as it is; the report names the row, what happened and its previous counts, and there is none for a missing row; fails, changing nothing, exactly for an OPEN row and an operator name or reason that cannot be noted |
| Store.IncidentStore.ExpireStaleIncidents | app/persistence/incidents.py:1137-1186 | picks the stale OPEN rows with the lowest ids, at most `limit` of them, and lists them in order; closes exactly those if all their rule names can be noted, and otherwise none |
| Store.LowestUnique | app/persistence/incidents.py:1137-1150 | the limited selection of the lowest stale ids is determined |
| Store.IncidentStore.RecordNotificationResult | app/persistence/incidents.py:380-408 | fails exactly for twenty records none of which is the plugin's; otherwise the row holds the result as the plugin's one record, with a message of the closed set, and all other records as before; a missing row is reported and changes nothing |
| Lives.LifeValid | app/persistence/incidents.py:560-640 | a row stays consistent and keeps its key and start time under any sequence of operations |
| Lives.Membership | app/persistence/incidents.py:295-303 | while an incident is OPEN its objects are exactly those reported after the last recovery, of those not refused, that covers them |
| Lives.ResolvedWhenEmptied | app/persistence/incidents.py:824-916 | the incident becomes RESOLVED at exactly the recovery that leaves no object reported |
| Lives.ForbiddenNeverResolves | app/persistence/incidents.py:864-916 | an incident opened for an object whose host cannot be noted is never resolved, whatever operations follow |
| Lives.TerminalIsFinal | app/domain/incidents.py:269-283 | after leaving OPEN a row keeps status, objects, window, marker and count whatever follows |
| Lives.WindowOfLife | app/persistence/incidents.py:597-620 | recoveries, operator actions, expiry and notifications never disturb the window: it is that of the plain stream of problems that reached the row |
| Lives.OneDispatchPerLife | app/processing/incident_manager.py:249-258 | with a fixed threshold the whole life of an incident plans one dispatch if its marker is set and none otherwise |
| Lives.DeliveryRecordsSurvive | app/persistence/incidents.py:346-377 | whatever happens to a row, it holds one record for each plugin, the last that was stored for it |
| Columns.CountAndSummary | app/persistence/incidents.py:607-616 | the event count is the number of counted reports and the summary that of the last of them |
| Columns.SeverityIsHighest | app/persistence/incidents.py:49-61 | the severity is the highest ever reported to the row, in the order OK, WARNING, UNKNOWN, CRITICAL, and was reported |
| Columns.MarksTellHistory | app/persistence/incidents.py:1030-1048 | the acknowledgement time is that of the first acknowledgement, the operator that of the last, the notification time that of the last successful delivery |
| Columns.EndIsDated | app/persistence/incidents.py:824-847 | `resolved_at` and `closed_at` are set exactly by the operation that ended the row |
| Columns.AffectedColumns | app/persistence/incidents.py:237-245 | the host and service columns of an OPEN row show the smallest live hosts and services in order, at most a hundred, and all of them if fewer |
| Columns.ContextTellsLast | app/persistence/incidents.py:730-778 | the decision context names fingerprint and source of the last problem or recovery that changed the row, and the current event count |
| Columns.StaleIffQuiet | app/persistence/incidents.py:1128-1150 | a row is stale exactly when every report that ever reached it is further back than the window of the last one to arrive |
| Transactions.AlwaysSafe | app/persistence/incidents.py:560-680 | in every interleaving, aborts included, there is one OPEN row per key, every row is consistent, no row is locked twice, and what a transaction read under lock is still stored |
| Transactions.SerialisedInCommitOrder | app/persistence/incidents.py:850-994 | the table is the one obtained by running the committed transactions in commit order, each acting on rows its operation picks there; a problem acts on exactly the row of its key |
| Histories.ProblemIsWhole | app/persistence/incidents.py:560-680 | a committed problem transaction does exactly what the operation does alone |
| Histories.ExpiryIsWhole | app/persistence/incidents.py:1137-1186 | a committed expiry closed exactly the rows it touched, each of them OPEN and stale, and changed no other |
| Histories.MissedNeedsReport | app/persistence/incidents.py:857-863 | only a problem that reports a covered object can bring a row under a recovery |
| Histories.MissedNeedsInsert | app/persistence/incidents.py:1003-1008 | only the insertion of the row itself can bring it under an operation on its id |
| Histories.FullySerialisable | app/persistence/incidents.py:850-994 | in a run in which no problem commits while a recovery of what it reports is under way, or inserts a row under an id just looked up in vain, every committed operation of every kind is whole, in commit order |
| Histories.OneDispatchPerIncident | app/processing/incident_manager.py:157-159 | over all interleavings with fixed thresholds the committed transactions plan exactly one dispatch for each crossed incident and none for the others |
| Serialisability.WholeIffCompatible | app/persistence/incidents.py:850-994 | every interleaving of a set of operations from every table, with ids that exist when looked up, runs whole operations in commit order exactly when no problem among them reports an object that a recovery among them, not refused for its texts, covers |
| Serialisability.WholeIffAlsoUntargeted | app/persistence/incidents.py:997-1125 | with ids that may not exist yet, exactly when in addition no problem runs beside an operation on an id that is not refused |
| Anomaly.NoOrderExplains | app/persistence/incidents.py:850-916 | no order of the two recoveries and the problem, each run whole, leaves what the constructed interleaving leaves |
| Anomaly.UnexplainedIffEndangered | app/persistence/incidents.py:850-994 | for any recovery and any problem, some table, further harmless recovery and interleaving of the three has a result that no order of them explains exactly when the problem reports an object the recovery covers and the recovery is not refused for its texts |
| Reached.RowsAreLives | app/persistence/incidents.py:560-680 | every row that an interleaving leaves is the life of the input that inserted it and the committed operations that updated it, in commit order |
| Reached.RowsTellHistory | app/persistence/incidents.py:295-303 | in every interleaving the objects of an OPEN row are those reported after the last committed recovery covering them, and its delivery records the last stored for each plugin |
| RateLimit.Limiter.Check | app/middleware/rate_limit.py:39-54 | an unelapsed window goes on and any other starts now; a grant is counted while the count is below the limit, and a denial names the seconds to the end of the window, rounded up and at least one |
| RateLimit.Limiter.SweepExpired | app/middleware/rate_limit.py:56-66 | removes exactly the expired counters and returns their number |
| RateLimit.RetryAfterIsEnough | app/middleware/rate_limit.py:48-53 | in every run a denial names a wait between one second and the window, and a check of the key after it with no grant in between is allowed |
| RateLimit.RetryAfterIsLeast | app/middleware/rate_limit.py:50-51 | in every run the wait is the least whole number of seconds: a check of the key a second or more before its end is denied |
| RateLimit.SweepTransparency | app/middleware/rate_limit.py:44-66 | two runs with the same checks are answered alike wherever sweeps happen |
| RateLimit.SweepNeedsStoredWindow | app/middleware/rate_limit.py:43-66 | a sweep changes no answer to a later check of a key, under any limit, exactly when the checks use a window no longer than the stored one |
| RateLimit.RateBound | app/middleware/rate_limit.py:39-54 | no interval as long as the window holds more than 2·limit grants to a key with both ends, or 2·limit − 1 without its right end |
| RateLimit.RateBoundIsTight | app/middleware/rate_limit.py:39-54 | for every limit and window a run reaches both bounds |
| RateLimit.WindowBound | app/middleware/rate_limit.py:44-54 | the grants since the current window of a key opened are exactly those it counts, at most the limit |
| Json.ObjectSize | app/persistence/audit.py:166-176 | the length of an object is the sum of its fields, the commas between them and two braces |
| Json.FieldAlone | app/persistence/audit.py:286-289 | serialising a field alone and taking off the braces measures its contribution |
| Json.CanonicalBytes | app/persistence/audit.py:166-176 | the bytes do not depend on the order in which a dictionary was filled |
| Parsing.ValueBack | app/persistence/audit.py:166-176 | a JSON reader written from RFC 8259 reads every serialised value back, from UTF-8 and from escaped text, with the fields of each object in key order |
| Canonical.BytesIdentifyValue | app/persistence/audit.py:166-176 | canonical bytes are equal exactly for equal JSON values at any depth, insertion order aside |
| Redaction.StringRedacted | app/persistence/audit.py:217-249 | a string becomes `[redacted]` exactly when one of the ten fragments stands somewhere in it lower-cased, and otherwise stays |
| Redaction.FieldRedacted | app/persistence/audit.py:236-243 | a field keeps place and key; its value becomes `[redacted]` exactly when its key, lower-cased twice, holds a fragment, and is redacted on its own otherwise |
| Redaction.RedactionIsFinal | app/persistence/audit.py:222-249 | redaction leaves no sensitive string and only the placeholder under sensitive keys, and redacting again changes nothing |
| Redaction.CleanIsFixpoint | app/persistence/audit.py:222-249 | redaction changes exactly the trees that hold something sensitive |
| Redaction.RedactKeepsRest | app/persistence/audit.py:222-249 | keys, their order, list lengths and all other scalars stay |
| Redaction.CountIsSensitiveLeaves | app/persistence/audit.py:252-269 | comparing a tree with its redaction counts the sensitive positions of the original |
| Redaction.CountIsPositions | app/persistence/audit.py:252-269 | the count is the number of paths at which something is replaced |
| Payloads.DeleteLength | app/persistence/audit.py:293-297 | deleting a field shortens the canonical JSON by its measured size and one comma unless it was the only field |
| Payloads.SemanticCap | app/persistence/audit.py:272-299 | the running length is the canonical length throughout; the result is the payload itself if it fits and otherwise what the shortest sufficient prefix of the drop order leaves, within any cap of at least two bytes; every dropped field is larger than every kept one, or as large with a smaller key |
| Payloads.ShortestDropUnique | app/persistence/audit.py:284-297 | only one number of drops is shortest |
| Payloads.RedactPayload | app/persistence/audit.py:302-344 | what is stored is clean, within the cap and no longer than the original, with exact lengths, truncation flag and redaction count; every stored field is one of the payload, with `[redacted]` exactly under a key that holds a fragment; errors come in the source's order |
| Tags.KeyPattern | app/domain/events.py:40-57 | a key has 1 to 64 characters, the first a small letter and the others small letters, digits, `_`, `.` or `-` |
| Tags.ValuePattern | app/domain/events.py:71-94 | a value has 1 to 256 characters, none NUL or half a surrogate pair |
| Tags.ValidateEventTags | app/domain/events.py:59-94 | the early-exit loop accepts exactly the maps of at most 128 valid pairs and 16,384 canonical bytes |
| Tags.PairBound | app/domain/events.py:71-94 | one pair of valid shape takes at most 1,607 bytes, so it never meets the byte limit |
| Tags.ProjectTags | app/persistence/audit.py:363-408 | keeps a tag exactly when it is admissible and fits behind the kept tags of smaller keys; the result is within 32 tags and 4,096 bytes and holds no fragment in a key or value; a value is shown as it is unless it holds one; the reasons are those the input and the result show |
| Tags.GreedyUnique | app/persistence/audit.py:383-407 | the greedy choice is determined by the input |
| Tags.NoReasonIffAllKept | app/persistence/audit.py:376-408 | without query flags there is no omission reason exactly when every key was kept |
| Cursors.LettersAreAlphabet | app/persistence/audit.py:416-441 | the letters are the URL-safe alphabet of RFC 4648, and the decoder takes `+` and `/` besides |
| Cursors.EncodeGroup | app/persistence/audit.py:416-431 | every three bytes become the four letters of their 24 bits, most significant first, with `=` for missing bytes |
| Cursors.Base64RoundTrip | app/persistence/audit.py:416-441 | stripping the padding and padding again by the length decodes to the encoded bytes |
| Cursors.AcceptedTexts | app/persistence/audit.py:438-441 | an unpadded text decodes exactly when its letters are in the alphabet and no single letter is left over |
| Cursors.Codec.CursorRoundTrip | app/persistence/audit.py:416-441 | a cursor survives encoding and decoding |
| Paging.PageIsPrefix | app/persistence/audit.py:790-806 | a page is the first `limit` remaining rows, and names a next page exactly when more remain |
| Paging.RestBelowNext | app/persistence/audit.py:757-776 | the rows behind a page are exactly those below its cursor |
| Paging.WalkListsAll | app/persistence/audit.py:755-806 | a finished walk over an unchanging table lists exactly the rows that pass the filter, latest first and by descending id at one moment, each once |
| Paging.WalkEnds | app/persistence/audit.py:755-806 | the walk finishes within one request for each full page and one more |
| Paging.WalkUnderInserts | app/persistence/audit.py:755-806 | with rows inserted between requests nothing is listed twice, the order holds and no matching row present at the start is skipped |
| Reports.LoopSizeNext | scripts/migrate_vigilo_config.py:1623-1635 | the running size is the length of the report with the issues so far |
| Reports.SettlingFits | scripts/migrate_vigilo_config.py:1636-1637 | settling the truncation flag after the loop never lengthens a report that fits, and at most 963 issues fit |
| Reports.BuildReport | scripts/migrate_vigilo_config.py:1595-1637 | carries the longest prefix of issues that fits, with outcome, count and truncation flag that agree with it; every failure report is at most 65,536 bytes with its newline |
| Reports.FailureReportsAccepted | app/processing/metrics.py:398-480 | the reader accepts a failure report exactly when its code is a reportable failure and the emitted issues are of known kinds; counts, truncation and outcome always agree |
| Reports.SuccessReportsAccepted | app/processing/metrics.py:398-480 | a success report without issues is accepted exactly when it names its files and carries no failure code |
| Reports.WrittenReportsAccepted | scripts/migrate_vigilo_config.py:1719-1912 | however the tool ends, the checks on the report it writes pass exactly when the issues in it are of known kinds |
| Reports.LeftOnce | scripts/migrate_vigilo_config.py:1595-1637 | the issues, the ending and the time determine the report that is left |
| Reports.AcceptedAndLeft | app/processing/metrics.py:364-480 | of the reports within 65,536 bytes with known kinds, a fitting code and a plausible time, those the writer leaves for some list of issues are exactly those the reader accepts that, where they hold issues, have room for the byte by which the writer's loop overstates a flag it sets at the end |
| Reports.AcceptedNotLeft | scripts/migrate_vigilo_config.py:1623-1637 | an accepted report is one the writer never leaves exactly when it holds issues, is 65,536 bytes long, truncated, and counts fewer than 1,000 issues |
| Reports.AcceptedNotLeftExists | scripts/migrate_vigilo_config.py:1623-1637 | such a report exists for every issue code and every plausible time |
| ReportReader.FileBack | app/processing/metrics.py:364-480 | from the bytes the writer leaves, the reader, which looks up literal keys and words in the JSON, finds the verdict, outcome, failure code and time of the report, and the whole report can be decoded from them |
| ReportReader.WrittenFilesAccepted | app/processing/metrics.py:398-480 | however the tool ends, the reader accepts the file it leaves exactly when its issues are of known kinds, and reads from it `success` or `failure` and the code of that ending |
| ReportReader.CheckedReport | app/processing/metrics.py:398-480 | JSON of any content is accepted only with exactly the keys, types and words of a report, a version of `true` aside, and on that shape the checks are those on the report it decodes to |
| Promotion.Disk.Promote | scripts/migrate_vigilo_config.py:1544-1583 | for faults at any set of steps: with none hit all three files are the staged ones and nothing else changed, otherwise the output directory is exactly as before, and the backup directory is gone |
| Promotion.Disk.BackUpAll | scripts/migrate_vigilo_config.py:1558-1563 | every backup equals its file and, without a fault, every existing file has one |
| Promotion.Disk.ReplaceAll | scripts/migrate_vigilo_config.py:1565-1567 | the directory holds the staged versions of exactly the promoted files, a prefix of the three |
| Promotion.Disk.RollBack | scripts/migrate_vigilo_config.py:1568-1580 | from any intermediate state the directory and its existence are restored |
| Promotion.RestoresAll | scripts/migrate_vigilo_config.py:1568-1576 | restoring the backups and removing new files gives back the files as they were |
| Priorities.FindDuplicate | scripts/migrate_vigilo_config.py:673-687 | reports no duplicate exactly for distinct priorities, and otherwise a priority that occurs twice |
| Priorities.Transform | scripts/migrate_vigilo_config.py:692-770 | sorts by descending priority and numbers all rules from one |
| Priorities.TranslatedByRank | scripts/migrate_vigilo_config.py:692-770 | with distinct priorities each rule is translated to the place and number given by how many are higher |
| Priorities.Evaluate | app/processing/rule_engine.py:9-37 | decides by the matching rule of lowest number, the first of them in the list: matched if the event has its group fields, otherwise a no-op, as for no match and for a recovery |
| Priorities.InversionKeepsMeaning | scripts/migrate_vigilo_config.py:692-699 | for distinct priorities the engine picks the translation of the matching source rule of highest priority, and none exactly when none matches |
| Priorities.ChosenIsUnique | scripts/migrate_vigilo_config.py:673-687 | with distinct priorities that source rule is the only one |
| Topology.MaskedIsValid | app/config/topology.py:81-90 | a subnet written with host bits becomes an aligned network that holds the written address |
| Topology.HoldsByPrefix | app/processing/enrichment.py:49-53 | a network holds an address exactly when versions and prefix bits agree, of 32 or 128 bits |
| Topology.RejectOverlaps | app/config/topology.py:91-98 | accepts exactly the lists without two overlapping networks of one version and different tags |
| Topology.NestedOrDisjoint | app/config/topology.py:91-98 | two valid networks of one version are nested or share no address |
| Topology.MatchingRulesAgree | app/processing/enrichment.py:49-53 | in an accepted configuration all rules that hold an address assign the same tags |
| Topology.ApplyRule | app/processing/enrichment.py:58-98 | literal tags and then non-empty captures override the event's tags, with exactly the added keys at their final values and exactly the replacements recorded |
| Topology.Enrich | app/processing/enrichment.py:35-56 | the first matching hostname rule decides whatever the address and the subnets are; without one the first subnet that holds the address, and without that nothing changes; tags, added tags and overrides are those of the deciding rule, key by key |
| Topology.EnrichmentIgnoresOrder | app/processing/enrichment.py:49-53 | for an accepted configuration every permutation of the subnet rules is accepted and gives every event the same tags |
| Topology.ConflictShowsInTags | app/config/topology.py:91-98 | rejection is needed: for two conflicting rules the tags of some address depend on their order |
| Ownership.ActorStep | scripts/cleanup_verification.py:123-264 | every command of an acquisition or a cleanup, failing or not and seen or unseen, except a deliberate release of a claim still relied on, leaves the acting invocation's stage, claim, receipt and view of the resources consistent |
| Ownership.OwnershipProtects | scripts/cleanup_verification.py:221-234 | in every interleaving in which no deliberate cleanup frees a claim still relied on, one invocation at most owns the project, an owned cleanup removes only resources its own invocation made, and an invocation gives its claim back only when none is left |
| Ownership.OrphanBlocks | scripts/cleanup_verification.py:116-153 | a claim created or kept unseen is never removed by an invocation, and none acquires the project until a deliberate cleanup frees it |
| Ownership.BreakingIffTrespass | scripts/cleanup_verification.py:221-264 | from any protected state a step makes it possible that an owned cleanup removes another invocation's resource, without a further such step, exactly when a deliberate cleanup frees by it a claim still relied on |
| Ownership.BreakingIsReachable | scripts/cleanup_verification.py:237-243 | from nothing, one acquisition and one deliberate cleanup lead to such a step |
| Ownership.AcquisitionCompletes | scripts/cleanup_verification.py:123-190 | an acquisition that meets no obstacle ends with the project owned |
| Ownership.RejectionCompletes | scripts/cleanup_verification.py:187-190 | an acquisition that is turned down gives its own claim back and leaves receipts and resources as they are |
| Ownership.OwnedCleanupCompletes | scripts/cleanup_verification.py:221-234 | an owned cleanup that no command fails leaves no resource, no claim and no receipt of its invocation |
| Ownership.DeliberateCleanupCompletes | scripts/cleanup_verification.py:237-243 | a deliberate cleanup that no command fails and that meets a claim removes everything and frees it |

## Left out

- SQL text, SQLAlchemy, migrations, routers, authentication, SMTP, logging, metrics gauges, worker scheduling and deployment: plumbing around the engine.
- Bounds of 256 characters on stored names and the checks of a problem's own decision context: a problem that breaks them fails before anything is written and does not occur here.
- The content of the notes of a decision context, apart from what makes them fail an operation, and the context fields that no operation reads back, `created_at` and `updated_at`.
- `list_incidents` and its cursor, which page by the same scheme as the audit list, and offset paging of the audit list.
- Store.IncidentStore.ExpireStaleIncidents: runs alone; with concurrent transactions `SKIP LOCKED` is modelled in Transactions as any subset of the stale rows.
- Transactions.AlwaysSafe: deadlocks, lost connections and the failing `scalar_one` of a vanished row are one step, an abort, that is possible at any moment; which of them occurred is not told apart.
- Transactions.SerialisedInCommitOrder: what an entry may have missed of the rows its operation picks is left to Histories and Serialisability, which say when nothing is.
- Histories.FullySerialisable: a condition on the run that is sufficient; the exact conditions are those of Serialisability.
- Incidents.ConstructionNormalises: the type and time zone checks of the constructor and the validation of the decision context, which the types of the model leave no room for.
- Lives.OneDispatchPerLife: the threshold of a rule stays fixed over the life of an incident; what lowering it does is `Crossings.SwallowedIffLowered`.
- Changes of window length, threshold and cap in the middle of an incident, except in `Crossings.CapTransparency`, which covers them.
- JSON numbers are opaque literals without delimiters; NaN handling, Python's float printing and, in the audit trail, its `True == 1` are not modelled, nor are dictionary keys that are not strings.
- Cursors.Codec.CursorRoundTrip: printing and parsing the JSON object with its timestamp and UUID inside a cursor enters as a pair of inverse functions.
- Reports.AcceptedAndLeft: is about reports by their data; what the reader makes of a file is ReportReader.
- ReportReader.FileBack: texts with half a surrogate pair, two of which would be read as one character; the parsing of the timestamp is a parameter.
- ReportReader.CheckedReport: numbers spelled with a fraction or exponent, keys that occur twice, and values that cannot be looked up in a set; opening the file and its failures are not part of this model.
- Parsing.ValueBack: white space between tokens and the grammar of number literals; nothing is said about text that no value serialises to.
- Tags.ProjectTags: values that are not strings are excluded by the query before the projection and do not occur here.
- Paging.WalkUnderInserts: rows are only added between requests; deletion of audit rows is not part of this model.
- Promotion.Disk.Promote: restoring and removing are taken to succeed, interrupts other than exceptions do not occur, and missing parent directories that were created stay unmodelled.
- Priorities.InversionKeepsMeaning: the rewriting of patterns, tags, group keys and summaries enters as an assumption that a translated rule matches the same events; the rest of the preflight is many single-branch checks.
- Topology.Enrich: hostname patterns are a matching function; a malformed address is a missing one; the parsing of CIDR text is not part of this model.
- Group key and summary rendering of the rule engine; whether an event has the group fields of a rule is a parameter.
- Ownership.ActorStep: the test for an existing database volume is one more way to be rejected, a receipt is written whole or not at all, resources of the project are made only by invocations that acquired it, and an invocation whose cleanup failed may go on using it.
- Ownership.OwnershipProtects: one invocation is sequential; two processes of one invocation at work at once (a nested fixture that does not release) are not part of this model.
