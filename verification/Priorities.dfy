/** Translation of source rules, where the highest priority wins, into rules of the engine, where
    the first match in ascending priority wins.

    A rule's body stands for everything but its priority. Matching is a parameter on both sides;
    the translated body is taken to match the events that the source body matches.
  */
module Priorities {
  import opened Order

  datatype Option<+T> = None | Some(value: T)

  datatype SourceRule<B> = SourceRule(body: B, priority: int)

  datatype EngineRule<B> = EngineRule(body: B, priority: int)

  predicate Higher<B>(a: SourceRule<B>, b: SourceRule<B>) {
    a.priority > b.priority
  }

  predicate Lower<B>(a: EngineRule<B>, b: EngineRule<B>) {
    a.priority < b.priority
  }

  ghost predicate DistinctPriorities<B>(rules: seq<SourceRule<B>>) {
    forall i, j :: 0 <= i < j < |rules| ==> rules[i].priority != rules[j].priority
  }

  /** The position of the first repeated priority, as the preflight looks for it. */
  method FindDuplicate<B>(rules: seq<SourceRule<B>>) returns (duplicate: Option<int>)
    ensures duplicate.None? <==> DistinctPriorities(rules)
    ensures duplicate.Some? ==>
      exists i, j :: 0 <= i < j < |rules| && rules[i].priority == rules[j].priority == duplicate.value
  {
    var seen: set<int> := {};
    for i := 0 to |rules|
      invariant forall p :: p in seen <==> exists j :: 0 <= j < i && rules[j].priority == p
      invariant forall j, k :: 0 <= j < k < i ==> rules[j].priority != rules[k].priority
    {
      if rules[i].priority in seen { return Some(rules[i].priority); }
      seen := seen + {rules[i].priority};
    }
    return None;
  }

  /** Sorts by descending priority and numbers from 1. */
  method Transform<B, C>(rules: seq<SourceRule<B>>, translate: B -> C) returns (r: seq<EngineRule<C>>)
    ensures r == Transformed(rules, translate)
    ensures |r| == |rules| && forall i :: 0 <= i < |r| ==> r[i].priority == i + 1
  {
    var sorted := Sort(Higher, rules);
    r := [];
    for i := 0 to |sorted|
      invariant r == Numbered(sorted[..i], translate)
    {
      r := r + [EngineRule(translate(sorted[i].body), i + 1)];
    }
    assert sorted[..|sorted|] == sorted;
  }

  function Numbered<B, C>(sorted: seq<SourceRule<B>>, translate: B -> C): seq<EngineRule<C>> {
    seq(|sorted|, i requires 0 <= i < |sorted| => EngineRule(translate(sorted[i].body), i + 1))
  }

  function Transformed<B, C>(rules: seq<SourceRule<B>>, translate: B -> C): seq<EngineRule<C>> {
    Numbered(Sort(Higher, rules), translate)
  }

  /** The first rule of a list that matches. */
  function FirstMatch<C, E>(rules: seq<EngineRule<C>>, matches: (C, E) -> bool, event: E): Option<EngineRule<C>> {
    if rules == [] then None
    else if matches(rules[0].body, event) then Some(rules[0])
    else FirstMatch(rules[1..], matches, event)
  }

  /** The rule in this place matches, none that matches has a lower number, and none before it the same. */
  ghost predicate LowestMatch<C(!new), E>(rules: seq<EngineRule<C>>, matches: (C, E) -> bool, event: E, i: int) {
    && 0 <= i < |rules| && matches(rules[i].body, event)
    && forall j :: 0 <= j < |rules| && matches(rules[j].body, event) ==>
         rules[i].priority < rules[j].priority || (rules[i].priority == rules[j].priority && i <= j)
  }

  ghost predicate Ascending<C(!new)>(rules: seq<EngineRule<C>>) {
    forall i, j :: 0 <= i < j < |rules| ==> rules[i].priority <= rules[j].priority
  }

  lemma {:induction false} InsertAscends<C(!new)>(x: EngineRule<C>, s: seq<EngineRule<C>>)
    requires Ascending(s)
    ensures Ascending(Insert(Lower, x, s))
    ensures forall y :: y in Insert(Lower, x, s) <==> y == x || y in s
  {
    if s != [] && Lower(s[0], x) {
      InsertAscends(x, s[1..]);
      var r := Insert(Lower, x, s[1..]);
      forall i | 0 <= i < |r| ensures s[0].priority <= r[i].priority { assert r[i] in r; }
    }
  }

  lemma {:induction false} SortAscends<C(!new)>(s: seq<EngineRule<C>>)
    ensures Ascending(Sort(Lower, s))
  {
    if s != [] {
      SortAscends(s[1..]);
      InsertAscends(s[0], Sort(Lower, s[1..]));
    }
  }

  lemma {:induction false} FirstMatchFinds<C(!new), E>(s: seq<EngineRule<C>>, matches: (C, E) -> bool, event: E)
    ensures FirstMatch(s, matches, event).Some? ==> FirstMatch(s, matches, event).value in s
  {
    if s != [] { FirstMatchFinds(s[1..], matches, event); }
  }

  /** A rule put in its place becomes the first match if it matches and its number is not greater. */
  lemma {:induction false} InsertMatch<C(!new), E>(x: EngineRule<C>, s: seq<EngineRule<C>>, matches: (C, E) -> bool, event: E)
    requires Ascending(s)
    ensures var found := FirstMatch(s, matches, event);
            FirstMatch(Insert(Lower, x, s), matches, event) ==
              if matches(x.body, event) && (found.None? || x.priority <= found.value.priority) then Some(x) else found
  {
    FirstMatchFinds(s, matches, event);
    if s == [] || !Lower(s[0], x) {
      assert ([x] + s)[1..] == s;
    } else {
      var rest := Insert(Lower, x, s[1..]);
      assert ([s[0]] + rest)[1..] == rest;
      InsertMatch(x, s[1..], matches, event);
    }
  }

  lemma {:induction false} LowestOfMore<C(!new), E>(x: EngineRule<C>, rest: seq<EngineRule<C>>, matches: (C, E) -> bool,
                                                    event: E, i: int)
    requires LowestMatch(rest, matches, event, i)
    ensures LowestMatch([x] + rest, matches, event,
                        if matches(x.body, event) && x.priority <= rest[i].priority then 0 else i + 1)
  {
    var all := [x] + rest;
    assert all[0] == x && forall j :: 1 <= j < |all| ==> all[j] == rest[j - 1];
  }

  lemma {:induction false} LowestAlone<C(!new), E>(x: EngineRule<C>, rest: seq<EngineRule<C>>, matches: (C, E) -> bool, event: E)
    requires matches(x.body, event) && forall y :: y in rest ==> !matches(y.body, event)
    ensures LowestMatch([x] + rest, matches, event, 0)
  {
    var all := [x] + rest;
    assert all[0] == x && forall j :: 1 <= j < |all| ==> all[j] in rest;
  }

  /** The engine's first match is the rule of lowest number that matches, the first of them in the list. */
  lemma {:induction false} FirstIsLowest<C(!new), E>(rules: seq<EngineRule<C>>, matches: (C, E) -> bool, event: E)
    ensures var r := FirstMatch(Sort(Lower, rules), matches, event);
            && (r.None? <==> forall rule :: rule in rules ==> !matches(rule.body, event))
            && (r.Some? ==> exists i :: LowestMatch(rules, matches, event, i) && rules[i] == r.value)
  {
    if rules != [] {
      hide Insert, Ascending, LowestMatch, FirstMatch;
      var x, rest := rules[0], rules[1..];
      var found := FirstMatch(Sort(Lower, rest), matches, event);
      SortAscends(rest);
      InsertMatch(x, Sort(Lower, rest), matches, event);
      FirstIsLowest(rest, matches, event);
      assert rules == [x] + rest;
      assert forall rule :: rule in rules <==> rule == x || rule in rest;
      if found.Some? {
        var i :| LowestMatch(rest, matches, event, i) && rest[i] == found.value;
        InRange(rest, matches, event, i);
        LowestOfMore(x, rest, matches, event, i);
        assert rules[i + 1] == rest[i];
      } else if matches(x.body, event) {
        LowestAlone(x, rest, matches, event);
      }
    }
  }

  lemma {:induction false} InRange<C(!new), E>(rules: seq<EngineRule<C>>, matches: (C, E) -> bool, event: E, i: int)
    requires LowestMatch(rules, matches, event, i)
    ensures 0 <= i < |rules| && rules[i] in rules && matches(rules[i].body, event)
  {}

  /** What the engine decides about an event. */
  datatype Decision<C> = Matched(rule: EngineRule<C>) | MissingGroupField(rule: EngineRule<C>) | NoMatch | IsRecovery

  /** The engine: rules sorted once by ascending priority, then searched for the first match. A match
      without all its group fields ends the search as well; `grouped` tells whether an event has them. */
  method Evaluate<C(!new), E>(rules: seq<EngineRule<C>>, matches: (C, E) -> bool, grouped: (C, E) -> bool, event: E, recovery: bool)
    returns (r: Decision<C>)
    ensures r.IsRecovery? <==> recovery
    ensures var first := FirstMatch(Sort(Lower, rules), matches, event);
            && (r.NoMatch? <==> !recovery && first.None?)
            && (r.Matched? <==> !recovery && first.Some? && grouped(first.value.body, event))
            && (r.Matched? || r.MissingGroupField? ==> Some(r.rule) == first)
    ensures r.NoMatch? <==> !recovery && forall rule :: rule in rules ==> !matches(rule.body, event)
    ensures r.Matched? || r.MissingGroupField? ==> exists i :: LowestMatch(rules, matches, event, i) && r.rule == rules[i]
    ensures r.Matched? ==> grouped(r.rule.body, event)
    ensures r.MissingGroupField? ==> !grouped(r.rule.body, event)
  {
    FirstIsLowest(rules, matches, event);
    var sorted := Sort(Lower, rules);
    if recovery { return IsRecovery; }
    for i := 0 to |sorted|
      invariant FirstMatch(sorted, matches, event) == FirstMatch(sorted[i..], matches, event)
    {
      assert sorted[i..][1..] == sorted[i + 1..];
      if matches(sorted[i].body, event) {
        return if grouped(sorted[i].body, event) then Matched(sorted[i]) else MissingGroupField(sorted[i]);
      }
    }
    return NoMatch;
  }

  /** What the source meant: the matching rule of highest priority. */
  ghost predicate Chosen<B(!new), E>(rules: seq<SourceRule<B>>, matches: (B, E) -> bool, event: E, rule: SourceRule<B>) {
    && rule in rules && matches(rule.body, event)
    && forall other :: other in rules && matches(other.body, event) ==> other.priority <= rule.priority
  }

  /** The priorities above a given one. */
  function Above<B>(rules: seq<SourceRule<B>>, priority: int): set<int> {
    set i | 0 <= i < |rules| && rules[i].priority > priority :: rules[i].priority
  }

  /** With distinct priorities, each rule is translated to the place and number that the count of
      higher priorities gives. */
  lemma {:induction false} TranslatedByRank<B(!new), C(!new)>(rules: seq<SourceRule<B>>, translate: B -> C, rule: SourceRule<B>)
    requires DistinctPriorities(rules) && rule in rules
    ensures var k, r := |Above(rules, rule.priority)|, Transformed(rules, translate);
            |r| == |rules| && k < |r| && r[k] == EngineRule(translate(rule.body), k + 1)
  {
    hide Above;
    var sorted := Sort(Higher, rules);
    HigherOrder<B>();
    SortSorts(Higher, rules);
    var k :| 0 <= k < |sorted| && sorted[k] == rule;
    AboveIsBefore(rules, sorted, k);
  }

  lemma {:induction false} AboveIsBefore<B(!new)>(rules: seq<SourceRule<B>>, sorted: seq<SourceRule<B>>, k: nat)
    requires SortedBy(Higher, sorted) && (forall rule :: rule in sorted <==> rule in rules) && k < |sorted|
    ensures |Above(rules, sorted[k].priority)| == k
  {
    var before := seq(k, i requires 0 <= i < k => sorted[i].priority);
    forall p | p in before ensures p in Above(rules, sorted[k].priority) {
      var i :| 0 <= i < k && before[i] == p;
      assert Higher(sorted[i], sorted[k]) && sorted[i] in rules;
      var j :| 0 <= j < |rules| && rules[j] == sorted[i];
    }
    forall p | p in Above(rules, sorted[k].priority) ensures p in before {
      var j :| 0 <= j < |rules| && rules[j].priority == p && p > sorted[k].priority;
      assert rules[j] in sorted;
      var i :| 0 <= i < |sorted| && sorted[i] == rules[j];
      assert forall m :: k < m < |sorted| ==> Higher(sorted[k], sorted[m]);
      assert i < k && before[i] == p;
    }
    forall i, j | 0 <= i < j < k ensures before[i] != before[j] { assert Higher(sorted[i], sorted[j]); }
    DistinctCount(before);
    assert (set p | p in before) == Above(rules, sorted[k].priority);
  }

  lemma {:induction false} HigherOrder<B(!new)>()
    ensures StrictOrder<SourceRule<B>>(Higher)
  {}

  lemma {:induction false} NumberedIsSorted<B(!new), C(!new)>(sorted: seq<SourceRule<B>>, translate: B -> C)
    ensures Sort(Lower, Numbered(sorted, translate)) == Numbered(sorted, translate)
  {
    var r := Numbered(sorted, translate);
    assert StrictOrder<EngineRule<C>>(Lower);
    assert SortedBy(Lower, r);
    SortOfSorted(Lower, r);
  }

  /** In a list of descending priority the first match is the chosen one. */
  lemma {:induction false} FirstOfDescending<B(!new), C(!new), E>(sorted: seq<SourceRule<B>>, translate: B -> C,
      matches: (B, E) -> bool, engine: (C, E) -> bool, event: E, k: nat)
    requires k <= |sorted| && SortedBy(Higher, sorted)
    requires forall b :: engine(translate(b), event) == matches(b, event)
    requires forall i :: 0 <= i < k ==> !matches(sorted[i].body, event)
    ensures var r := FirstMatch(Numbered(sorted, translate)[k..], engine, event);
            && (r.None? ==> forall rule :: rule in sorted ==> !matches(rule.body, event))
            && (r.Some? ==> exists rule :: Chosen(sorted, matches, event, rule) && r.value.body == translate(rule.body))
    decreases |sorted| - k
  {
    if k < |sorted| {
      var rest := Numbered(sorted, translate)[k..];
      assert rest[1..] == Numbered(sorted, translate)[k + 1..];
      if matches(sorted[k].body, event) {
        forall other | other in sorted && matches(other.body, event) ensures other.priority <= sorted[k].priority {
          var j :| 0 <= j < |sorted| && sorted[j] == other;
          assert j > k ==> Higher(sorted[k], sorted[j]);
        }
        assert Chosen(sorted, matches, event, sorted[k]);
      } else {
        FirstOfDescending(sorted, translate, matches, engine, event, k + 1);
      }
    }
  }

  /** Main theorem: for source rules with distinct priorities, the rule the engine picks among the
      translated rules is the translation of the matching source rule of highest priority, and it
      picks none exactly when no source rule matches. */
  lemma {:induction false} InversionKeepsMeaning<B(!new), C(!new), E>(rules: seq<SourceRule<B>>, translate: B -> C,
      matches: (B, E) -> bool, engine: (C, E) -> bool, event: E)
    requires DistinctPriorities(rules)
    requires forall b :: engine(translate(b), event) == matches(b, event)
    ensures var r := FirstMatch(Sort(Lower, Transformed(rules, translate)), engine, event);
            && (r.None? <==> forall rule :: rule in rules ==> !matches(rule.body, event))
            && (r.Some? ==> exists rule :: Chosen(rules, matches, event, rule) && r.value.body == translate(rule.body))
  {
    var sorted := Sort(Higher, rules);
    HigherOrder<B>();
    SortSorts(Higher, rules);
    NumberedIsSorted(sorted, translate);
    FirstOfDescending(sorted, translate, matches, engine, event, 0);
    var r := FirstMatch(Numbered(sorted, translate), engine, event);
    assert Numbered(sorted, translate)[0..] == Numbered(sorted, translate);
    if r.Some? {
      var rule :| Chosen(sorted, matches, event, rule) && r.value.body == translate(rule.body);
      assert Chosen(rules, matches, event, rule);
    }
  }

  /** With distinct priorities there is only one such rule. */
  lemma {:induction false} ChosenIsUnique<B(!new), E>(rules: seq<SourceRule<B>>, matches: (B, E) -> bool, event: E,
      a: SourceRule<B>, b: SourceRule<B>)
    requires DistinctPriorities(rules) && Chosen(rules, matches, event, a) && Chosen(rules, matches, event, b)
    ensures a == b
  {
    var i :| 0 <= i < |rules| && rules[i] == a;
    var j :| 0 <= j < |rules| && rules[j] == b;
  }
}
