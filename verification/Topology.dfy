/** Subnet rules: CIDR blocks, the rejection of conflicting overlaps, and enrichment of event tags. */
module Topology {
  import opened Order

  datatype Version = V4 | V6

  function Width(v: Version): nat {
    if v.V4? then 32 else 128
  }

  function Pow2(n: nat): (p: nat)
    ensures p >= 1
  {
    if n == 0 then 1 else 2 * Pow2(n - 1)
  }

  ghost predicate Multiple(n: nat, s: nat) {
    exists q: nat :: n == q * s
  }

  datatype Address = Address(version: Version, bits: nat)

  /** A network as parsed without strictness: the host bits are masked away. */
  datatype Network = Network(version: Version, base: nat, length: nat) {
    ghost predicate Valid() {
      length <= Width(version) && Multiple(base, Size()) && base < Pow2(Width(version))
    }

    function Size(): (s: nat)
      ensures s >= 1
    {
      if length <= Width(version) then Pow2(Width(version) - length) else 1
    }

    function Last(): nat {
      base + Size() - 1
    }

    predicate Has(a: Address) {
      a.version == version && base <= a.bits <= Last()
    }

    /** As the library tests it: one of the four end points lies in the other network. */
    predicate Overlaps(other: Network) {
      || other.base <= base <= other.Last()
      || other.base <= Last() <= other.Last()
      || base <= other.base <= Last()
      || base <= other.Last() <= Last()
    }
  }

  /** Clears the part of an address below a block size. */
  function ClearBelow(bits: nat, size: nat): (r: nat)
    requires size >= 1
    ensures r <= bits < r + size
  {
    bits - bits % size
  }

  function Masked(version: Version, bits: nat, length: nat): Network {
    Network(version, ClearBelow(bits, Network(version, 0, length).Size()), length)
  }

  /** Masking gives a valid network that holds the address it was written with. */
  lemma {:induction false} MaskedIsValid(version: Version, bits: nat, length: nat)
    requires length <= Width(version) && bits < Pow2(Width(version))
    ensures Masked(version, bits, length).Valid() && Masked(version, bits, length).Has(Address(version, bits))
  {
    hide Pow2, Multiple, ClearBelow;
    var n := Masked(version, bits, length);
    MaskBounds(bits, n.Size());
  }

  lemma {:induction false} MaskBounds(bits: nat, s: nat)
    requires s >= 1
    ensures Multiple(ClearBelow(bits, s), s)
  {
    assert ClearBelow(bits, s) == bits / s * s;
  }

  /** A network holds an address exactly when the version is the same and the bits in front of the
      host part are. */
  lemma {:induction false} HoldsByPrefix(n: Network, a: Address)
    requires n.Valid()
    ensures var s := Pow2((if n.version.V4? then 32 else 128) - n.length);
            n.Has(a) <==> a.version == n.version && a.bits / s == n.base / s
  {
    hide Pow2, Multiple;
    var s := n.Size();
    SameQuotient(n.base, s, a.bits);
  }

  lemma {:induction false} SameQuotient(base: nat, s: nat, bits: nat)
    requires s >= 1 && Multiple(base, s)
    ensures base <= bits <= base + s - 1 <==> bits / s == base / s
  {
    var q: nat :| base == q * s;
    QuotientUnique(base, s, q);
    if base <= bits <= base + s - 1 { QuotientUnique(bits, s, q); }
    if bits / s == q { Quotient(bits, s); }
  }

  lemma {:induction false} Quotient(x: nat, s: nat)
    requires s >= 1
    ensures x / s * s <= x < x / s * s + s
  {}

  lemma {:induction false} QuotientUnique(x: nat, s: nat, q: nat)
    requires s >= 1 && q * s <= x < q * s + s
    ensures x / s == q
  {
    var k := x / s;
    Quotient(x, s);
    if k < q {
      MulMonotone(k + 1, q, s);
      Distribute(k, 1, s);
    } else if k > q {
      MulMonotone(q + 1, k, s);
      Distribute(q, 1, s);
    }
  }

  type TagMap = map<Text, Text>

  datatype SubnetRule = SubnetRule(id: Text, network: Network, tags: TagMap)

  // ---------------------------------------------------------------------------------------
  // Overlap rejection
  // ---------------------------------------------------------------------------------------

  predicate Conflict(a: SubnetRule, b: SubnetRule) {
    a.network.version == b.network.version && a.network.Overlaps(b.network) && a.tags != b.tags
  }

  ghost predicate Accepted(rules: seq<SubnetRule>) {
    forall i, j :: 0 <= i < j < |rules| ==> !Conflict(rules[i], rules[j])
  }

  method RejectOverlaps(rules: seq<SubnetRule>) returns (ok: bool)
    ensures ok <==> Accepted(rules)
  {
    for i := 0 to |rules|
      invariant forall a, b :: 0 <= a < i && a < b < |rules| ==> !Conflict(rules[a], rules[b])
    {
      for j := i + 1 to |rules|
        invariant forall b :: i < b < j ==> !Conflict(rules[i], rules[b])
      {
        if Conflict(rules[i], rules[j]) { return false; }
      }
    }
    return true;
  }

  /** Networks that share an address overlap. */
  lemma {:induction false} SharedAddressOverlaps(a: Network, b: Network, x: Address)
    requires a.Has(x) && b.Has(x)
    ensures a.version == b.version && a.Overlaps(b)
  {}

  lemma {:induction false} Pow2Divides(m: nat, n: nat)
    requires m <= n
    ensures exists k: nat :: Pow2(n) == k * Pow2(m)
  {
    if m == n {
      assert Pow2(n) == 1 * Pow2(m);
    } else {
      Pow2Divides(m, n - 1);
      var k: nat :| Pow2(n - 1) == k * Pow2(m);
      assert Pow2(n) == (2 * k) * Pow2(m);
    }
  }

  /** CIDR blocks are nested or disjoint: if they overlap, the one with the longer prefix lies
      within the other. */
  lemma {:induction false} NestedOrDisjoint(a: Network, b: Network)
    requires a.Valid() && b.Valid() && a.version == b.version && a.length >= b.length
    ensures a.Overlaps(b) <==> b.base <= a.base && a.Last() <= b.Last()
  {
    hide Pow2, Multiple, Width;
    var w := Width(a.version);
    Pow2Divides(w - a.length, w - b.length);
    var k: nat :| b.Size() == k * a.Size();
    if a.Overlaps(b) {
      AlignedInside(a.base, a.Size(), b.base, b.Size(), k);
    }
  }

  /** An aligned block that meets a larger aligned block lies within it. */
  lemma {:induction false} AlignedInside(a: nat, s: nat, b: nat, t: nat, k: nat)
    requires s >= 1 && t >= 1 && Multiple(a, s) && Multiple(b, t) && t == k * s
    requires a <= b + t - 1 && b <= a + s - 1
    ensures b <= a && a + s <= b + t
  {
    var m: nat :| a == m * s;
    var n: nat :| b == n * t;
    Associate(n, k, s);
    Distribute(n * k, k, s);
    Distribute(m, 1, s);
    BetweenMultiples(m, s, n * k, n * k + k);
  }

  lemma {:induction false} BetweenMultiples(m: nat, s: nat, lo: nat, hi: nat)
    requires s >= 1 && m * s < hi * s && lo * s < (m + 1) * s
    ensures lo * s <= m * s && (m + 1) * s <= hi * s
  {
    MulMonotone(m + 1, lo, s);
    MulMonotone(hi, m, s);
    assert lo <= m < hi;
    MulMonotone(lo, m, s);
    MulMonotone(m + 1, hi, s);
  }

  lemma {:induction false} Associate(x: nat, y: nat, z: nat)
    ensures x * (y * z) == (x * y) * z
  {}

  lemma {:induction false} Distribute(x: nat, y: nat, s: nat)
    ensures (x + y) * s == x * s + y * s
  {}

  lemma {:induction false} MulMonotone(x: int, y: int, s: nat)
    ensures x <= y ==> x * s <= y * s
  {
    if x <= y { assert (y - x) * s >= 0; assert y * s == x * s + (y - x) * s; }
  }

  // ---------------------------------------------------------------------------------------
  // Enrichment
  // ---------------------------------------------------------------------------------------

  datatype Option<+T> = None | Some(value: T)

  /** The first rule whose network holds the address. */
  function FirstSubnet(rules: seq<SubnetRule>, a: Address): Option<SubnetRule> {
    if rules == [] then None
    else if rules[0].network.Has(a) then Some(rules[0])
    else FirstSubnet(rules[1..], a)
  }

  /** An override: the key, its old and its new value. */
  datatype Override = Override(key: Text, before: Text, after: Text)

  datatype Applied = Applied(tags: TagMap, added: TagMap, overridden: seq<Override>)

  /** The entries whose keys an event did not have. */
  function NewIn(all: TagMap, tags: TagMap): TagMap {
    map k | k in all && k !in tags :: all[k]
  }

  /** A setting that replaces another value in `tags`. */
  ghost predicate Replaces(o: Override, tags: TagMap, settings: TagMap) {
    o.key in tags && o.key in settings && tags[o.key] == o.before && settings[o.key] == o.after && o.before != o.after
  }

  /** Captures that matched something. */
  function Captures(captured: TagMap): TagMap {
    map k | k in captured && captured[k] != [] :: captured[k]
  }

  /** Sets the literal tags and then the captured ones, recording what is new and what is replaced. */
  method ApplyRule(tags: TagMap, literal: TagMap, captured: TagMap) returns (r: Applied)
    ensures TagsSet(tags, literal, captured, r)
    ensures r.tags == tags + literal + Captures(captured)
    ensures r.added == NewIn(r.tags, tags)
    ensures forall o :: o in r.overridden <==> Replaces(o, tags, literal) || Replaces(o, tags + literal, Captures(captured))
  {
    var first := ApplyLiteral(tags, literal);
    r := ApplyCaptured(tags, first, captured);
    SetsTags(tags, literal, captured, r);
  }

  /** A rule's effect, key by key: a capture that matched something wins over a literal tag, and that
      over the event's own; what is new and what was replaced is recorded. */
  ghost predicate TagsSet(tags: TagMap, literal: TagMap, captured: TagMap, r: Applied) {
    && (forall k :: k in r.tags <==> k in tags || k in literal || (k in captured && captured[k] != []))
    && (forall k :: k in r.tags ==>
          r.tags[k] == if k in captured && captured[k] != [] then captured[k] else if k in literal then literal[k] else tags[k])
    && (forall k :: k in r.added <==> k in r.tags && k !in tags)
    && (forall k :: k in r.added ==> r.added[k] == r.tags[k])
    && (forall o :: o in r.overridden <==>
          o.before != o.after
          && ((o.key in tags && o.key in literal && o.before == tags[o.key] && o.after == literal[o.key])
              || (o.key in captured && captured[o.key] != [] && o.after == captured[o.key]
                  && if o.key in literal then o.before == literal[o.key] else o.key in tags && o.before == tags[o.key])))
  }

  lemma {:induction false} SetsTags(tags: TagMap, literal: TagMap, captured: TagMap, r: Applied)
    requires r.tags == tags + literal + Captures(captured)
    requires r.added == NewIn(r.tags, tags)
    requires forall o :: o in r.overridden <==> Replaces(o, tags, literal) || Replaces(o, tags + literal, Captures(captured))
    ensures TagsSet(tags, literal, captured, r)
  {}

  lemma {:induction false} NextCapture(captured: TagMap, todo: set<Text>, key: Text)
    requires key in todo && todo <= captured.Keys
    ensures key !in Captures(captured - todo)
    ensures Captures(captured - (todo - {key}))
         == if captured[key] == [] then Captures(captured - todo) else Captures(captured - todo)[key := captured[key]]
  {}

  lemma {:induction false} NewInAfter(all: TagMap, tags: TagMap, key: Text, value: Text)
    ensures NewIn(all[key := value], tags) == if key in tags then NewIn(all, tags) else NewIn(all, tags)[key := value]
    ensures key in NewIn(all, tags) <==> key in all && key !in tags
    ensures key in NewIn(all, tags) ==> NewIn(all, tags)[key] == all[key]
  {}

  /** Besides `before`, the list holds exactly the replacements. */
  ghost predicate Lists(overridden: seq<Override>, before: seq<Override>, base: TagMap, settings: TagMap) {
    forall o :: o in overridden <==> o in before || Replaces(o, base, settings)
  }

  lemma {:induction false} ListsAfter(overridden: seq<Override>, before: seq<Override>, base: TagMap, settings: TagMap,
                                      key: Text, value: Text)
    requires key !in settings && Lists(overridden, before, base, settings)
    ensures Lists(if key in base && base[key] != value then overridden + [Override(key, base[key], value)] else overridden,
                  before, base, settings[key := value])
  {
    forall o ensures Replaces(o, base, settings[key := value]) <==>
                       Replaces(o, base, settings) || (key in base && base[key] != value && o == Override(key, base[key], value)) {}
  }

  /** Recording one captured tag. */
  lemma {:induction false} CaptureStep(tags: TagMap, base: TagMap, done: TagMap, newTags: TagMap, added: TagMap,
                                       key: Text, value: Text)
    requires newTags == base + done && key !in done && tags.Keys <= base.Keys && added == NewIn(newTags, tags)
    ensures newTags[key := value] == base + done[key := value]
    ensures NewIn(newTags[key := value], tags)
         == if key !in newTags || (newTags[key] != value && key in added) then added[key := value] else added
    ensures key in newTags <==> key in base
    ensures key in base ==> newTags[key] == base[key]
  {
    hide NewIn;
    NewInAfter(newTags, tags, key, value);
    if key in newTags && newTags[key] == value { assert newTags[key := value] == newTags; }
  }

  lemma {:induction false} NextLiteral(literal: TagMap, todo: set<Text>, key: Text)
    requires key in todo && todo <= literal.Keys
    ensures key !in literal - todo && literal - (todo - {key}) == (literal - todo)[key := literal[key]]
  {}

  lemma {:induction false} NothingSet(tags: TagMap, literal: TagMap)
    ensures tags == tags + (literal - literal.Keys) && NewIn(tags, tags) == map[]
    ensures Lists([], [], tags, literal - literal.Keys)
  {}

  method ApplyLiteral(tags: TagMap, literal: TagMap) returns (r: Applied)
    ensures r.tags == tags + literal
    ensures r.added == NewIn(r.tags, tags)
    ensures Lists(r.overridden, [], tags, literal)
  {
    var newTags := tags;
    var added: TagMap := map[];
    var overridden: seq<Override> := [];
    NothingSet(tags, literal);
    hide *;
    var todo := literal.Keys;
    while todo != {}
      invariant todo <= literal.Keys
      invariant newTags == tags + (literal - todo)
      invariant added == NewIn(newTags, tags)
      invariant Lists(overridden, [], tags, literal - todo)
      decreases todo
    {
      var key :| key in todo;
      var value := literal[key];
      NextLiteral(literal, todo, key);
      ghost var done := literal - todo;
      todo := todo - {key};
      LiteralStep(tags, done, newTags, added, key, value);
      ListsAfter(overridden, [], tags, done, key, value);
      if key in newTags {
        if newTags[key] != value { overridden := overridden + [Override(key, newTags[key], value)]; }
      } else {
        added := added[key := value];
      }
      newTags := newTags[key := value];
    }
    assert literal - todo == literal;
    r := Applied(newTags, added, overridden);
  }

  /** Setting one literal tag. */
  lemma {:induction false} LiteralStep(tags: TagMap, done: TagMap, newTags: TagMap, added: TagMap, key: Text, value: Text)
    requires newTags == tags + done && key !in done && added == NewIn(newTags, tags)
    ensures newTags[key := value] == tags + done[key := value]
    ensures NewIn(newTags[key := value], tags) == if key in newTags then added else added[key := value]
    ensures key in newTags <==> key in tags
    ensures key in tags ==> newTags[key] == tags[key]
  {
    hide NewIn;
    NewInAfter(newTags, tags, key, value);
  }

  method ApplyCaptured(tags: TagMap, first: Applied, captured: TagMap) returns (r: Applied)
    requires tags.Keys <= first.tags.Keys && first.added == NewIn(first.tags, tags)
    ensures r.tags == first.tags + Captures(captured)
    ensures r.added == NewIn(r.tags, tags)
    ensures Lists(r.overridden, first.overridden, first.tags, Captures(captured))
  {
    var newTags, added, overridden := first.tags, first.added, first.overridden;
    NoneCaptured(first, captured);
    hide *;
    var todo := captured.Keys;
    while todo != {}
      invariant todo <= captured.Keys
      invariant newTags == first.tags + Captures(captured - todo)
      invariant added == NewIn(newTags, tags)
      invariant Lists(overridden, first.overridden, first.tags, Captures(captured - todo))
      decreases todo
    {
      var key :| key in todo;
      var value := captured[key];
      NextCapture(captured, todo, key);
      ghost var done := Captures(captured - todo);
      todo := todo - {key};
      if value != [] {
        CaptureStep(tags, first.tags, done, newTags, added, key, value);
        ListsAfter(overridden, first.overridden, first.tags, done, key, value);
        if key in newTags {
          if newTags[key] != value {
            overridden := overridden + [Override(key, newTags[key], value)];
            if key in added { added := added[key := value]; }
          }
        } else {
          added := added[key := value];
        }
        newTags := newTags[key := value];
      }
    }
    assert captured - todo == captured;
    r := Applied(newTags, added, overridden);
  }

  lemma {:induction false} NoneCaptured(first: Applied, captured: TagMap)
    ensures first.tags == first.tags + Captures(captured - captured.Keys)
    ensures Lists(first.overridden, first.overridden, first.tags, Captures(captured - captured.Keys))
  {}

  /** A hostname rule with its pattern. */
  datatype HostRule = HostRule(id: Text, pattern: Text, tags: TagMap)

  /** Matching of a pattern against a host: the captured tags, if it matches. */
  type Matcher = (HostRule, Text) -> Option<TagMap>

  function FirstHost(rules: seq<HostRule>, matcher: Matcher, host: Text): Option<HostRule> {
    if rules == [] then None
    else if matcher(rules[0], host).Some? then Some(rules[0])
    else FirstHost(rules[1..], matcher, host)
  }

  /** The rule that enriches an event, with what it assigns. */
  datatype Match = Match(id: Text, literal: TagMap, captured: TagMap)

  /** The first matching hostname rule, and only without one the first subnet that holds the address. */
  function MatchFor(hosts: seq<HostRule>, subnets: seq<SubnetRule>, matcher: Matcher, host: Text,
                    address: Option<Address>): Option<Match> {
    var byHost := FirstHost(hosts, matcher, host);
    if byHost.Some? then
      var captured := matcher(byHost.value, host);
      Some(Match(byHost.value.id, byHost.value.tags, if captured.Some? then captured.value else map[]))
    else if address.None? then None
    else
      var bySubnet := FirstSubnet(subnets, address.value);
      if bySubnet.None? then None else Some(Match(bySubnet.value.id, bySubnet.value.tags, map[]))
  }

  /** The tags of an event after enrichment. */
  function Enriched(hosts: seq<HostRule>, subnets: seq<SubnetRule>, matcher: Matcher, tags: TagMap, host: Text,
                    address: Option<Address>): TagMap {
    var m := MatchFor(hosts, subnets, matcher, host, address);
    if m.None? then tags else tags + m.value.literal + Captures(m.value.captured)
  }

  /** The hostname rule in this place matches, and none before it. */
  ghost predicate FirstToMatch(hosts: seq<HostRule>, matcher: Matcher, host: Text, i: int) {
    0 <= i < |hosts| && matcher(hosts[i], host).Some? && forall j :: 0 <= j < i ==> matcher(hosts[j], host).None?
  }

  /** The subnet in this place holds the address, and none before it. */
  ghost predicate FirstToHold(subnets: seq<SubnetRule>, a: Address, i: int) {
    0 <= i < |subnets| && subnets[i].network.Has(a) && forall j :: 0 <= j < i ==> !subnets[j].network.Has(a)
  }

  method Enrich(hosts: seq<HostRule>, subnets: seq<SubnetRule>, matcher: Matcher, tags: TagMap, host: Text,
                address: Option<Address>) returns (r: Applied, rule: Option<Text>)
    ensures r.tags == Enriched(hosts, subnets, matcher, tags, host, address)
    ensures r.added == NewIn(r.tags, tags)
    ensures var m := MatchFor(hosts, subnets, matcher, host, address);
            if m.None? then rule == None && r.overridden == []
            else rule == Some(m.value.id) && forall o :: o in r.overridden <==>
                   Replaces(o, tags, m.value.literal) || Replaces(o, tags + m.value.literal, Captures(m.value.captured))
    ensures forall i :: FirstToMatch(hosts, matcher, host, i) ==>
              rule == Some(hosts[i].id) && TagsSet(tags, hosts[i].tags, matcher(hosts[i], host).value, r)
    ensures (forall h :: h in hosts ==> matcher(h, host).None?) ==>
              && (forall i :: address.Some? && FirstToHold(subnets, address.value, i) ==>
                    rule == Some(subnets[i].id) && TagsSet(tags, subnets[i].tags, map[], r))
              && (address.None? || (forall s :: s in subnets ==> !s.network.Has(address.value)) ==>
                    rule == None && r == Applied(tags, map[], []))
  {
    hide NewIn, Captures, Replaces, TagsSet, Network.Has;
    for i := 0 to |hosts|
      invariant FirstHost(hosts, matcher, host) == FirstHost(hosts[i..], matcher, host)
      invariant forall j :: 0 <= j < i ==> matcher(hosts[j], host).None?
    {
      assert hosts[i..][1..] == hosts[i + 1..];
      var captured := matcher(hosts[i], host);
      if captured.Some? {
        r := ApplyRule(tags, hosts[i].tags, captured.value);
        return r, Some(hosts[i].id);
      }
    }
    if address.Some? {
      for i := 0 to |subnets|
        invariant FirstSubnet(subnets, address.value) == FirstSubnet(subnets[i..], address.value)
        invariant forall j :: 0 <= j < i ==> !subnets[j].network.Has(address.value)
      {
        assert subnets[i..][1..] == subnets[i + 1..];
        if subnets[i].network.Has(address.value) {
          r := ApplyRule(tags, subnets[i].tags, map[]);
          return r, Some(subnets[i].id);
        }
      }
    }
    NothingAdded(tags);
    return Applied(tags, map[], []), None;
  }

  lemma {:induction false} NothingAdded(tags: TagMap)
    ensures NewIn(tags, tags) == map[]
  {}

  lemma {:induction false} FirstSubnetFinds(rules: seq<SubnetRule>, a: Address)
    ensures FirstSubnet(rules, a).None? <==> forall r :: r in rules ==> !r.network.Has(a)
    ensures FirstSubnet(rules, a).Some? ==> FirstSubnet(rules, a).value in rules && FirstSubnet(rules, a).value.network.Has(a)
  {
    if rules != [] { FirstSubnetFinds(rules[1..], a); }
  }

  lemma {:induction false} NoCaptures(tags: TagMap)
    ensures tags + Captures(map[]) == tags
  {}

  /** All accepted rules that hold an address assign the same tags. */
  lemma {:induction false} MatchingRulesAgree(rules: seq<SubnetRule>, a: Address, x: SubnetRule, y: SubnetRule)
    requires Accepted(rules) && x in rules && y in rules && x.network.Has(a) && y.network.Has(a)
    ensures x.tags == y.tags
  {
    var i :| 0 <= i < |rules| && rules[i] == x;
    var j :| 0 <= j < |rules| && rules[j] == y;
    SharedAddressOverlaps(x.network, y.network, a);
    SharedAddressOverlaps(y.network, x.network, a);
    if i < j { assert !Conflict(rules[i], rules[j]); } else if j < i { assert !Conflict(rules[j], rules[i]); }
  }

  /** Main theorem: for an accepted configuration every order of the subnet rules gives an event
      the same tags, whatever its host, its address and the hostname rules. */
  lemma {:induction false} EnrichmentIgnoresOrder(rules: seq<SubnetRule>, permuted: seq<SubnetRule>, hosts: seq<HostRule>,
      matcher: Matcher, tags: TagMap, host: Text, address: Option<Address>)
    requires Accepted(rules) && multiset(rules) == multiset(permuted)
    ensures Enriched(hosts, rules, matcher, tags, host, address) == Enriched(hosts, permuted, matcher, tags, host, address)
    ensures Accepted(permuted)
  {
    hide FirstSubnet, FirstHost, Conflict, Captures;
    SameMembers(rules, permuted);
    if address.Some? {
      var a := address.value;
      FirstSubnetFinds(rules, a);
      FirstSubnetFinds(permuted, a);
      var x, y := FirstSubnet(rules, a), FirstSubnet(permuted, a);
      if x.Some? && y.Some? {
        MatchingRulesAgree(rules, a, x.value, y.value);
        NoCaptures(tags + x.value.tags);
      }
    }
    AcceptedPermuted(rules, permuted);
  }

  lemma {:induction false} AcceptedPermuted(rules: seq<SubnetRule>, permuted: seq<SubnetRule>)
    requires Accepted(rules) && multiset(rules) == multiset(permuted)
    ensures Accepted(permuted)
  {
    hide Conflict;
    SameMembers(rules, permuted);
    forall i, j | 0 <= i < j < |permuted| ensures !Conflict(permuted[i], permuted[j]) {
      assert permuted[i] in rules && permuted[j] in rules;
      var m :| 0 <= m < |rules| && rules[m] == permuted[i];
      var n :| 0 <= n < |rules| && rules[n] == permuted[j];
      ConflictSymmetric(rules[m], rules[n]);
      NoSelfConflict(rules[m]);
    }
  }

  lemma {:induction false} NoSelfConflict(a: SubnetRule)
    ensures !Conflict(a, a)
  {}

  lemma {:induction false} ConflictSymmetric(a: SubnetRule, b: SubnetRule)
    ensures Conflict(a, b) <==> Conflict(b, a)
  {}

  /** The overlap rule is no stricter than that needs: with two conflicting rules the tags of some
      address depend on their order. */
  lemma {:induction false} ConflictShowsInTags(a: SubnetRule, b: SubnetRule, matcher: Matcher, host: Text)
    requires a.network.Valid() && b.network.Valid() && Conflict(a, b)
    ensures exists x :: Enriched([], [a, b], matcher, map[], host, Some(x)) != Enriched([], [b, a], matcher, map[], host, Some(x))
  {
    var bits := if a.network.base >= b.network.base then a.network.base else b.network.base;
    var x := Address(a.network.version, bits);
    assert a.network.Has(x) && b.network.Has(x);
    assert FirstSubnet([a, b], x) == Some(a) && FirstSubnet([b, a], x) == Some(b);
    NoCaptures(map[] + a.tags);
    NoCaptures(map[] + b.tags);
    assert map[] + a.tags == a.tags && map[] + b.tags == b.tags;
    assert Enriched([], [a, b], matcher, map[], host, Some(x)) != Enriched([], [b, a], matcher, map[], host, Some(x));
  }
}
